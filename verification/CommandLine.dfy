/** The program's own flag tables, and the way from a command line to album items. */
module CommandLine {
  import opened Wrappers
  import opened Arguments
  import opened FlagParsing
  import opened Phrases

  /** The names that reorderArgs takes for flags without a value. */
  const BOOL_FLAGS: set<string> := {
    "h", "help", "no-retry", "noretry", "n", "discover-chat-id", "discoverchatid", "d", "whoami", "w",
    "json", "j", "no-trim", "silent", "S", "dry-run", "D"
  }

  /** The names registered in the program's flag set. */
  function Registered(name: string): Option<Flag> {
    if name in {"whoami", "w"} then Some(Flag(Whoami, Switch))
    else if name in {"json", "j"} then Some(Flag(JsonOut, Switch))
    else if name in {"no-trim"} then Some(Flag(NoTrim, Switch))
    else if name in {"no-retry", "noretry", "n"} then Some(Flag(NoRetry, Switch))
    else if name in {"discover-chat-id", "discoverchatid", "d"} then Some(Flag(Discover, Switch))
    else if name in {"silent", "S"} then Some(Flag(Silent, Switch))
    else if name in {"dry-run", "D"} then Some(Flag(DryRun, Switch))
    else ValueFlag(name)
  }

  function ValueFlag(name: string): Option<Flag> {
    if name in {"message", "m"} then Some(Flag(Message, Text))
    else if name in {"file", "f"} then Some(Flag(FilePath, Text))
    else if name in {"url", "u"} then Some(Flag(FileURL, Text))
    else if name in {"file-id", "fileid", "F"} then Some(Flag(FileID, Text))
    else if name in {"type", "t"} then Some(Flag(FileType, Text))
    else if name in {"caption", "c"} then Some(Flag(Caption, Text))
    else if name in {"token", "T"} then Some(Flag(Token, Text))
    else if name in {"chat-id", "chatid", "C"} then Some(Flag(ChatID, Text))
    else if name in {"parse-mode", "parsemode", "p"} then Some(Flag(ParseMode, Text))
    else if name in {"reply-to", "r"} then Some(Flag(ReplyTo, Int64))
    else if name in {"offset", "o"} then Some(Flag(Offset, Int64))
    else if name in {"album", "a"} then Some(Flag(Album, Repeated))
    else if name in {"retries", "R"} then Some(Flag(Retries, Int))
    else if name in {"base-wait", "basewait", "B"} then Some(Flag(BaseWait, Duration))
    else if name in {"proxy", "P"} then Some(Flag(Proxy, Text))
    else if name in {"base-url", "U"} then Some(Flag(BaseURL, Text))
    else if name in {"completion", "A"} then Some(Flag(Completion, Text))
    else None
  }

  /** strconv.ParseBool succeeds */
  predicate IsBool(value: string) {
    value in {"1", "t", "T", "TRUE", "true", "True", "0", "f", "F", "FALSE", "false", "False"}
  }

  /** The program's flag set; `numeric` says which texts parse as integers and durations. */
  function ProgramFlags(numeric: (Kind, string) -> bool): FlagSet {
    FlagSet(Registered, (kind: Kind, value: string) => if kind.Switch? then IsBool(value) else numeric(kind, value))
  }

  /** The names that reorderArgs takes for booleans are exactly the registered boolean flags and the two help flags. */
  lemma TablesAgree(name: string)
    ensures name in BOOL_FLAGS <==>
            (Registered(name).Some? && Registered(name).value.kind.Switch?) || name == "h" || name == "help"
    ensures name == "h" || name == "help" ==> Registered(name) == None
    ensures "" !in BOOL_FLAGS
  {
  }

  lemma ProgramIsConsistent(numeric: (Kind, string) -> bool)
    ensures Consistent(ProgramFlags(numeric), BOOL_FLAGS)
  {
    hide Registered;
    TablesAgree("");
    forall name ensures Registered(name).Some? ==> (Registered(name).value.kind.Switch? <==> name in BOOL_FLAGS) {
      TablesAgree(name);
    }
  }

  // ----- How a run begins -----

  datatype Launch = PrintsVersion | Options(parse: Parse)

  predicate IsVersion(arg: string) {
    arg == "-v" || arg == "--version"
  }

  predicate AsksVersion(args: seq<string>) {
    exists k :: 0 <= k < |args| && IsVersion(args[k])
  }

  /** What the program makes of its arguments: any version token, wherever it
      stands, comes before parsing. */
  function Launched(numeric: (Kind, string) -> bool, args: seq<string>): Launch {
    if AsksVersion(args) then PrintsVersion
    else Options(GoParse(ProgramFlags(numeric), Reordered(BOOL_FLAGS, args)))
  }

  method LaunchLine(numeric: (Kind, string) -> bool, args: seq<string>) returns (l: Launch)
    ensures l == Launched(numeric, args)
  {
    hide GoParse, Reordered;
    for i := 0 to |args|
      invariant forall k :: 0 <= k < i ==> !IsVersion(args[k])
    {
      if IsVersion(args[i]) {
        return PrintsVersion;
      }
    }
    var line := ReorderArgs(BOOL_FLAGS, args);
    l := Options(GoParse(ProgramFlags(numeric), line));
  }

  /** A left-to-right reading of the line meets a version token where a flag stands. */
  predicate MeetsVersion(fs: FlagSet, args: seq<string>) {
    if args == [] then false
    else if !FlagLike(args[0]) then MeetsVersion(fs, args[1..])
    else if IsVersion(args[0]) then true
    else
      match NextFlag(fs, args)
      case Takes(_, n) => MeetsVersion(fs, args[n..])
      case _ => false
  }

  /** What the line says when it is read directly, the version flags included. */
  function Meant(numeric: (Kind, string) -> bool, args: seq<string>): Launch {
    var fs := ProgramFlags(numeric);
    if MeetsVersion(fs, args) then PrintsVersion else Options(ParseAnywhere(fs, args))
  }

  lemma {:induction false} MetIsThere(fs: FlagSet, args: seq<string>)
    requires MeetsVersion(fs, args)
    ensures AsksVersion(args)
    decreases |args|
  {
    hide NextFlag;
    if FlagLike(args[0]) && IsVersion(args[0]) {
    } else {
      var n := if FlagLike(args[0]) then NextFlag(fs, args).used else 1;
      MetIsThere(fs, args[n..]);
      var k :| 0 <= k < |args[n..]| && IsVersion(args[n..][k]);
      assert IsVersion(args[n + k]);
    }
  }

  /** README.md:298-299 on the program's own tables: flags parse anywhere on the
      command line if and only if the version tokens on it, if any, stand where
      flags do, and a line without them is faithful. */
  lemma ProgramParsesAnywhere(numeric: (Kind, string) -> bool, args: seq<string>)
    ensures var fs := ProgramFlags(numeric);
            && (GoParse(fs, Reordered(BOOL_FLAGS, args)) == ParseAnywhere(fs, args)
                <==> Faithful(BOOL_FLAGS, Walked(fs, args)))
            && (Launched(numeric, args) == Meant(numeric, args)
                <==> if AsksVersion(args) then MeetsVersion(fs, args) else Faithful(BOOL_FLAGS, Walked(fs, args)))
  {
    hide GoParse, ParseAnywhere, Walked, Reordered, Faithful, Consistent, AsksVersion, MeetsVersion;
    ProgramIsConsistent(numeric);
    ParsesAnywhere(ProgramFlags(numeric), BOOL_FLAGS, args);
    if MeetsVersion(ProgramFlags(numeric), args) {
      MetIsThere(ProgramFlags(numeric), args);
    }
  }

  /** A message that reads "-v" prints the version. */
  lemma VersionValueExample(numeric: (Kind, string) -> bool)
    ensures Launched(numeric, ["-m", "-v"]) == PrintsVersion
    ensures Meant(numeric, ["-m", "-v"]) == Options(Done([Assignment(Message, "-v")], []))
  {
    var fs, args := ProgramFlags(numeric), ["-m", "-v"];
    ReadShort(fs, 'm');
    assert "-" + ['m'] == "-m";
    assert Registered("m") == Some(Flag(Message, Text));
    assert NextFlag(fs, args) == Takes(Assignment(Message, "-v"), 2);
    hide ReadFlag, ProgramFlags, NextFlag, Registered;
    assert IsVersion(args[1]);
    assert args[2..] == [];
    assert Walked(fs, args[2..]) == Walk([], [], AtEnd) && !MeetsVersion(fs, args[2..]);
    assert [Assignment(Message, "-v")] + [] == [Assignment(Message, "-v")];
    assert Walked(fs, args) == Walk([Assignment(Message, "-v")], [], AtEnd);
    assert !MeetsVersion(fs, args);
  }

  /** A value flag left at the end of the line swallows the first positional token. */
  lemma TrailingFlagExample(numeric: (Kind, string) -> bool)
    ensures var fs := ProgramFlags(numeric);
            && ParseAnywhere(fs, ["text", "-f"]) == Failed([], NeedsArgument("f"))
            && GoParse(fs, Reordered(BOOL_FLAGS, ["text", "-f"])) == Done([Assignment(FilePath, "text")], [])
  {
    var fs := ProgramFlags(numeric);
    var args := ["text", "-f"];
    assert args[1..] == ["-f"];
    assert ReadFlag(fs, "-f") == Wants("f", Flag(FilePath, Text)) by { assert "-f"[1..] == "f"; }
    var w := Walked(fs, args);
    assert Walked(fs, args[1..]) == Walk([], [], AtHungry("f", Flag(FilePath, Text)));
    assert w == Walk([], ["text"], AtHungry("f", Flag(FilePath, Text)));
    ProgramIsConsistent(numeric);
    HungryFlagTakesFirstPositional(fs, BOOL_FLAGS, args);
  }

  /** "--" does not end the flags: it moves ahead with the token after it. */
  lemma TerminatorExample(numeric: (Kind, string) -> bool)
    ensures var fs := ProgramFlags(numeric);
            && ParseAnywhere(fs, ["a", "--", "b"]) == Done([], ["a", "b"])
            && GoParse(fs, Reordered(BOOL_FLAGS, ["a", "--", "b"])) == Done([], ["b", "a"])
  {
    hide ProgramFlags, GoParse, Walked;
    var fs := ProgramFlags(numeric);
    TerminatorWalk(fs);
    ProgramIsConsistent(numeric);
    ParseOfReordered(fs, BOOL_FLAGS, ["a", "--", "b"]);
    PositionalsOfWalk(fs, BOOL_FLAGS, ["a", "--", "b"]);
    NoFlagsUnchanged(BOOL_FLAGS, []);
    assert ["b"][1..] == [] && ["b"] + ["a"] == ["b", "a"];
  }

  lemma TerminatorWalk(fs: FlagSet)
    ensures Walked(fs, ["a", "--", "b"]) == Walk([], ["a"], AtTerminator(["b"]))
  {
  }

  /** The program's parse of any line of well-spelled settings and positional
      tokens; a value that reads as a version token takes precedence. */
  lemma ProgramSettings(numeric: (Kind, string) -> bool, phrases: seq<Phrase>)
    requires forall k :: 0 <= k < |phrases| ==> WellSpelled(ProgramFlags(numeric), phrases[k])
    ensures var fs := ProgramFlags(numeric);
            && GoParse(fs, Reordered(BOOL_FLAGS, Line(phrases))) == Done(Settings(fs, phrases), Texts(phrases))
            && Launched(numeric, Line(phrases)) ==
               if AsksVersion(Line(phrases)) then PrintsVersion
               else Options(Done(Settings(fs, phrases), Texts(phrases)))
  {
    hide ProgramFlags, WellSpelled, GoParse, Reordered;
    ProgramIsConsistent(numeric);
    SettingsParseAnywhere(ProgramFlags(numeric), BOOL_FLAGS, phrases);
  }

  // ----- Album items -----

  /** flag.Value of --album: each use of the flag appends its value. */
  class StringSlice {
    var values: seq<string>

    constructor ()
      ensures values == []
    {
      values := [];
    }

    method Set(v: string)
      modifies this
      ensures values == old(values) + [v]
    {
      values := values + [v];
    }
  }

  function AlbumValues(bound: seq<Assignment>): seq<string> {
    if bound == [] then []
    else (if bound[0].target.Album? then [bound[0].value] else []) + AlbumValues(bound[1..])
  }

  /** The effect of a parse on the --album variable. */
  method StoreAlbum(bound: seq<Assignment>, album: StringSlice)
    modifies album
    ensures album.values == old(album.values) + AlbumValues(bound)
  {
    var i := 0;
    while i < |bound|
      invariant 0 <= i <= |bound|
      invariant album.values + AlbumValues(bound[i..]) == old(album.values) + AlbumValues(bound)
    {
      assert bound[i..][1..] == bound[i + 1..];
      if bound[i].target.Album? {
        album.Set(bound[i].value);
      }
      i := i + 1;
    }
  }

  /** One album reference of the command line, with where it was written. */
  datatype Item = FromFlag(value: string) | FromArgument(value: string)

  /** The album references that a line writes, in command-line order: the values
      of album flags, positional tokens, and whatever follows a "--". */
  function InOrder(fs: FlagSet, args: seq<string>): seq<Item> {
    if args == [] then []
    else if !FlagLike(args[0]) then [FromArgument(args[0])] + InOrder(fs, args[1..])
    else
      match NextFlag(fs, args)
      case Takes(a, n) =>
        (if a.target.Album? then [FromFlag(a.value)] else []) + InOrder(fs, args[n..])
      case EndsFlags => Sourced(args[1..], 0)
      case _ => []
  }

  /** References of which the first `flags` were written as flag values. */
  function Sourced(refs: seq<string>, flags: nat): seq<Item> {
    seq(|refs|, k requires 0 <= k < |refs| => if k < flags then FromFlag(refs[k]) else FromArgument(refs[k]))
  }

  function Values(items: seq<Item>): seq<string> {
    seq(|items|, k requires 0 <= k < |items| => items[k].value)
  }

  /** The items written as flags (or as arguments), in order. */
  function Written(items: seq<Item>, asFlags: bool): seq<Item> {
    if items == [] then []
    else if items[0].FromFlag? == asFlags then [items[0]] + Written(items[1..], asFlags)
    else Written(items[1..], asFlags)
  }

  ghost predicate FlagsLead(items: seq<Item>) {
    forall i, j :: 0 <= i < j < |items| && items[j].FromFlag? ==> items[i].FromFlag?
  }

  /** What a direct reading of the line finds after its flags. */
  function Loose(w: Walk): seq<string> {
    w.positional + if w.stop.AtTerminator? then w.stop.rest else []
  }

  lemma {:induction false} ItemsOfWalk(fs: FlagSet, args: seq<string>)
    requires !Walked(fs, args).stop.AtError?
    ensures var w := Walked(fs, args);
            && Values(Written(InOrder(fs, args), true)) == AlbumValues(w.bound)
            && Values(Written(InOrder(fs, args), false)) == Loose(w)
    decreases |args|
  {
    hide NextFlag;
    if args == [] {
    } else if !FlagLike(args[0]) {
      ItemsOfWalk(fs, args[1..]);
      WrittenStep(FromArgument(args[0]), InOrder(fs, args[1..]));
      var w := Walked(fs, args[1..]);
      assert [args[0]] + Loose(w) == Loose(Walked(fs, args));
    } else if NextFlag(fs, args).Takes? {
      var next := NextFlag(fs, args);
      var w := Walked(fs, args[next.used..]);
      ItemsOfWalk(fs, args[next.used..]);
      var a := next.assignment;
      assert ([a] + w.bound)[1..] == w.bound;
      if a.target.Album? {
        WrittenStep(FromFlag(a.value), InOrder(fs, args[next.used..]));
      } else {
        assert [] + InOrder(fs, args[next.used..]) == InOrder(fs, args[next.used..]);
        assert [] + AlbumValues(w.bound) == AlbumValues(w.bound);
      }
    } else if NextFlag(fs, args).EndsFlags? {
      AllLoose(args[1..]);
    }
  }

  lemma AllLoose(refs: seq<string>)
    ensures Written(Sourced(refs, 0), true) == [] && Written(Sourced(refs, 0), false) == Sourced(refs, 0)
    ensures Values(Sourced(refs, 0)) == refs
  {
    WrittenSame(Sourced(refs, 0), false);
    WrittenKind(Sourced(refs, 0), true);
  }

  lemma WrittenStep(item: Item, items: seq<Item>)
    ensures forall f :: Values(Written([item] + items, f)) ==
                        (if item.FromFlag? == f then [item.value] else []) + Values(Written(items, f))
  {
  }

  lemma {:induction false} WrittenMultiset(items: seq<Item>)
    ensures multiset(Written(items, true) + Written(items, false)) == multiset(items)
  {
    if items == [] {
    } else {
      WrittenMultiset(items[1..]);
      assert items == [items[0]] + items[1..];
    }
  }

  lemma {:induction false} WrittenKind(items: seq<Item>, f: bool)
    ensures forall k :: 0 <= k < |Written(items, f)| ==> Written(items, f)[k].FromFlag? == f
    ensures Written(items, f) == [] <==> forall k :: 0 <= k < |items| ==> items[k].FromFlag? != f
  {
    if items == [] {
    } else {
      WrittenKind(items[1..], f);
      assert forall k :: 1 <= k < |items| ==> items[k] == items[1..][k - 1];
      if items[0].FromFlag? != f && forall k :: 0 <= k < |items[1..]| ==> items[1..][k].FromFlag? != f {
        assert forall k :: 0 <= k < |items| ==> items[k].FromFlag? != f;
      }
    }
  }

  lemma {:induction false} WrittenSame(items: seq<Item>, f: bool)
    requires forall k :: 0 <= k < |items| ==> items[k].FromFlag? == f
    ensures Written(items, f) == items
  {
    if items == [] {
    } else {
      WrittenSame(items[1..], f);
      assert items == [items[0]] + items[1..];
    }
  }

  lemma {:induction false} MergedInOrder(items: seq<Item>)
    ensures Written(items, true) + Written(items, false) == items <==> FlagsLead(items)
  {
    if items == [] {
    } else if items[0].FromFlag? {
      MergedInOrder(items[1..]);
      LeadTail(items);
      var rest := Written(items[1..], true) + Written(items[1..], false);
      assert Written(items, true) + Written(items, false) == [items[0]] + rest;
      assert ([items[0]] + rest)[1..] == rest && items == [items[0]] + items[1..];
    } else {
      WrittenKind(items, true);
      if Written(items, true) == [] {
        WrittenSame(items, false);
        assert [] + items == items;
      } else {
        assert (Written(items, true) + Written(items, false))[0].FromFlag?;
      }
    }
  }

  lemma LeadTail(items: seq<Item>)
    requires items != [] && items[0].FromFlag?
    ensures FlagsLead(items) <==> FlagsLead(items[1..])
  {
  }

  // ----- The album of a command line -----

  /** The line ends in a flag that lacks its value and is no album flag: it
      swallows the first positional token. */
  predicate Swallows(w: Walk) {
    w.stop.AtHungry? && !w.stop.flag.target.Album?
  }

  /** The references that reach the album. */
  function Kept(w: Walk, items: seq<Item>): seq<Item> {
    if Swallows(w) && Written(items, false) != [] then WithoutFirstArgument(items) else items
  }

  function WithoutFirstArgument(items: seq<Item>): seq<Item> {
    if items == [] then []
    else if items[0].FromArgument? then items[1..]
    else [items[0]] + WithoutFirstArgument(items[1..])
  }

  /** The order of the tokens after a "--" survives the rewriting. */
  predicate TerminatorKeepsOrder(w: Walk) {
    w.stop.AtTerminator? ==> Faithful(BOOL_FLAGS, w)
  }

  /** `refs` is the album of a line that the program accepts, `args` read as `w`
      and writing `items`. It holds every reference once but the one a last flag
      swallows, so nothing is lost if and only if none is swallowed; and it is in
      command-line order if and only if, moreover, no album flag follows another
      reference and no "--" disturbs the order of what follows it. */
  ghost predicate IsAlbum(refs: seq<string>, w: Walk, items: seq<Item>) {
    var merged := Sourced(refs, |Written(items, true)|);
    && multiset(merged) == multiset(Kept(w, items))
    && (multiset(merged) == multiset(items) <==> !Swallows(w))
    && (merged == Kept(w, items) <==> FlagsLead(Kept(w, items)) && TerminatorKeepsOrder(w))
    && (merged == items <==> !Swallows(w) && FlagsLead(items) && TerminatorKeepsOrder(w))
  }

  /** What the album is made of, in terms of the direct reading. */
  lemma RefsOfParse(fs: FlagSet, args: seq<string>)
    requires Consistent(fs, BOOL_FLAGS) && GoParse(fs, Reordered(BOOL_FLAGS, args)).Done?
    ensures var p, w := GoParse(fs, Reordered(BOOL_FLAGS, args)), Walked(fs, args);
            && !w.stop.AtError? && (w.stop.AtHungry? ==> w.positional != [])
            && AlbumValues(p.bound) + p.rest == AlbumValues(w.bound) + AfterFlags(w)
  {
    hide GoParse, Walked, Stored, Consistent, Reordered, FlagBlock, PositionalBlock;
    ParseOfReordered(fs, BOOL_FLAGS, args);
    PositionalsOfWalk(fs, BOOL_FLAGS, args);
    var p, w := GoParse(fs, Reordered(BOOL_FLAGS, args)), Walked(fs, args);
    if w.stop.AtHungry? && w.positional != [] {
      StoredIs(fs, w.stop.name, w.stop.flag, w.positional[0]);
      var a := Assignment(w.stop.flag.target, w.positional[0]);
      AlbumValuesJoin(w.bound, [a]);
      assert [a][1..] == [];
      assert w.positional == [w.positional[0]] + w.positional[1..];
    } else if w.stop.AtTerminator? && w.stop.rest != [] {
      var rest := w.stop.rest;
      assert [rest[0]] + FlagBlock(BOOL_FLAGS, rest[1..]) + (w.positional + PositionalBlock(BOOL_FLAGS, rest[1..]))
          == [rest[0]] + FlagBlock(BOOL_FLAGS, rest[1..]) + w.positional + PositionalBlock(BOOL_FLAGS, rest[1..]);
    }
  }

  lemma StoredIs(fs: FlagSet, name: string, flag: Flag, value: string)
    ensures Stored(fs, name, flag, value).Assigns? ==>
              Stored(fs, name, flag, value).assignment == Assignment(flag.target, value)
    ensures !Stored(fs, name, flag, value).Assigns? ==> Stored(fs, name, flag, value).Wrong?
  {
  }

  lemma {:induction false} AlbumValuesJoin(a: seq<Assignment>, b: seq<Assignment>)
    ensures AlbumValues(a + b) == AlbumValues(a) + AlbumValues(b)
  {
    if a == [] {
      assert a + b == b;
    } else {
      assert (a + b)[1..] == a[1..] + b;
      AlbumValuesJoin(a[1..], b);
    }
  }

  /** The references that are no values of album flags, in the order they reach the album. */
  function AfterFlags(w: Walk): seq<string> {
    match w.stop
    case AtHungry(_, flag) =>
      if !flag.target.Album? && w.positional != [] then w.positional[1..] else w.positional
    case AtTerminator(rest) =>
      if rest == [] then w.positional
      else [rest[0]] + FlagBlock(BOOL_FLAGS, rest[1..]) + w.positional + PositionalBlock(BOOL_FLAGS, rest[1..])
    case _ => w.positional
  }

  lemma AfterFlagsIs(fs: FlagSet, args: seq<string>)
    requires var w := Walked(fs, args); w.stop.AtHungry? ==> w.positional != []
    ensures var w := Walked(fs, args);
            && (Swallows(w) ==> Loose(w) == [w.positional[0]] + AfterFlags(w))
            && (!Swallows(w) ==> multiset(AfterFlags(w)) == multiset(Loose(w)))
            && (!Swallows(w) ==> (AfterFlags(w) == Loose(w) <==> TerminatorKeepsOrder(w)))
  {
    hide Walked, FlagBlock, PositionalBlock, FlagsFirst;
    var w := Walked(fs, args);
    if w.stop.AtTerminator? && w.stop.rest != [] {
      WalkedPositionalsAreNotFlags(fs, args);
      TerminatorOrder(BOOL_FLAGS, w.positional, w.stop.rest);
      TerminatorMultiset(w.positional, w.stop.rest);
    }
  }

  lemma TerminatorMultiset(before: seq<string>, rest: seq<string>)
    requires rest != []
    ensures multiset([rest[0]] + FlagBlock(BOOL_FLAGS, rest[1..]) + before + PositionalBlock(BOOL_FLAGS, rest[1..]))
            == multiset(before + rest)
  {
    hide FlagBlock, PositionalBlock;
    Permutation(BOOL_FLAGS, rest[1..]);
    assert rest == [rest[0]] + rest[1..];
  }

  /** The references of the two kinds, put together, as items. */
  lemma SourcedJoin(items: seq<Item>, refs: seq<string>)
    ensures var flags := Written(items, true);
            Sourced(Values(flags) + refs, |flags|) == flags + Sourced(refs, 0)
  {
    WrittenKind(items, true);
    var flags := Written(items, true);
    var left, right := Sourced(Values(flags) + refs, |flags|), flags + Sourced(refs, 0);
    forall k | 0 <= k < |left| ensures left[k] == right[k] {
      if k < |flags| { assert flags[k].FromFlag?; }
    }
  }

  lemma SourcedValues(items: seq<Item>)
    ensures Sourced(Values(Written(items, false)), 0) == Written(items, false)
  {
    WrittenKind(items, false);
  }

  lemma {:induction false} WithoutFirst(items: seq<Item>)
    requires Written(items, false) != []
    ensures var rest := WithoutFirstArgument(items);
            && Written(rest, true) == Written(items, true)
            && Written(rest, false) == Written(items, false)[1..]
            && |rest| == |items| - 1
  {
    if items[0].FromArgument? {
    } else {
      WithoutFirst(items[1..]);
      assert WithoutFirstArgument(items)[1..] == WithoutFirstArgument(items[1..]);
    }
  }

  lemma {:induction false} SourcedCount(refs: seq<string>, x: string)
    ensures multiset(Sourced(refs, 0))[FromArgument(x)] == multiset(refs)[x]
    ensures multiset(Sourced(refs, 0))[FromFlag(x)] == 0
  {
    if refs == [] {
    } else {
      SourcedCount(refs[1..], x);
      assert refs == [refs[0]] + refs[1..];
      assert Sourced(refs, 0) == [FromArgument(refs[0])] + Sourced(refs[1..], 0);
    }
  }

  lemma SourcedMultiset(a: seq<string>, b: seq<string>)
    requires multiset(a) == multiset(b)
    ensures multiset(Sourced(a, 0)) == multiset(Sourced(b, 0))
  {
    hide Sourced;
    forall item: Item ensures multiset(Sourced(a, 0))[item] == multiset(Sourced(b, 0))[item] {
      SourcedCount(a, item.value);
      SourcedCount(b, item.value);
    }
  }

  /** Flags followed by loose references are in the order of `items` exactly when both parts agree. */
  lemma MergedExactly(items: seq<Item>, refs: seq<string>)
    ensures Written(items, true) + Sourced(refs, 0) == items
            <==> FlagsLead(items) && refs == Values(Written(items, false))
  {
    hide FlagsLead, Written, Sourced, Values;
    var flags, loose := Written(items, true), Sourced(refs, 0);
    SourcedValues(items);
    MergedInOrder(items);
    if flags + loose == items {
      AllLoose(refs);
      WrittenJoin(flags, loose);
      WrittenIdempotent(items);
      assert [] + loose == loose;
    }
  }

  lemma {:induction false} WrittenJoin(a: seq<Item>, b: seq<Item>)
    ensures forall f :: Written(a + b, f) == Written(a, f) + Written(b, f)
  {
    if a == [] {
      assert a + b == b;
    } else {
      assert (a + b)[1..] == a[1..] + b;
      WrittenJoin(a[1..], b);
    }
  }

  lemma WrittenIdempotent(items: seq<Item>)
    ensures Written(Written(items, true), false) == []
  {
    WrittenKind(items, true);
    WrittenKind(Written(items, true), false);
  }

  /** The album theorem, on every line that the program accepts. */
  lemma AlbumItems(numeric: (Kind, string) -> bool, args: seq<string>)
    requires GoParse(ProgramFlags(numeric), Reordered(BOOL_FLAGS, args)).Done?
    ensures var fs := ProgramFlags(numeric);
            var p := GoParse(fs, Reordered(BOOL_FLAGS, args));
            IsAlbum(AlbumValues(p.bound) + p.rest, Walked(fs, args), InOrder(fs, args))
  {
    hide GoParse, Walked, InOrder, Reordered, AfterFlags, Loose, IsAlbum, ProgramFlags, Swallows, Consistent;
    var fs := ProgramFlags(numeric);
    ProgramIsConsistent(numeric);
    RefsOfParse(fs, args);
    ItemsOfWalk(fs, args);
    AfterFlagsIs(fs, args);
    AlbumOfParts(Walked(fs, args), InOrder(fs, args), AfterFlags(Walked(fs, args)));
  }

  /** From a command line to the references of its album: look for a version
      token, rewrite, parse, store the album flags, and append the positional tokens. */
  method AlbumOf(numeric: (Kind, string) -> bool, args: seq<string>) returns (refs: Option<seq<string>>)
    ensures var fs := ProgramFlags(numeric);
            var p := GoParse(fs, Reordered(BOOL_FLAGS, args));
            && (refs.Some? <==> !AsksVersion(args) && p.Done?)
            && (refs.Some? ==> refs.value == AlbumValues(p.bound) + p.rest
                               && IsAlbum(refs.value, Walked(fs, args), InOrder(fs, args)))
  {
    hide GoParse, Walked, InOrder, Reordered, IsAlbum, AsksVersion;
    var l := LaunchLine(numeric, args);
    if l.PrintsVersion? || l.parse.Failed? {
      return None;
    }
    var p := l.parse;
    AlbumItems(numeric, args);
    var album := new StringSlice();
    StoreAlbum(p.bound, album);
    refs := Some(album.values + p.rest);
  }

  lemma AlbumOfParts(w: Walk, items: seq<Item>, after: seq<string>)
    requires Values(Written(items, false)) == Loose(w)
    requires Swallows(w) ==> Loose(w) != [] && Loose(w)[1..] == after
    requires !Swallows(w) ==> multiset(after) == multiset(Loose(w))
    requires !Swallows(w) ==> (after == Loose(w) <==> TerminatorKeepsOrder(w))
    ensures IsAlbum(Values(Written(items, true)) + after, w, items)
  {
    hide Loose, Written, FlagsLead, Values, WithoutFirstArgument, Sourced, Faithful;
    var kept, flags := Kept(w, items), Written(items, true);
    SourcedJoin(items, after);
    SourcedValues(items);
    WrittenMultiset(items);
    if Swallows(w) {
      SourcedTail(Loose(w));
      WithoutFirst(items);
      SourcedValues(kept);
      AllLoose(after);
      WrittenMultiset(kept);
      MergedExactly(kept, after);
      assert |multiset(kept)| == |items| - 1;
    } else {
      SourcedMultiset(after, Loose(w));
      MergedExactly(items, after);
    }
  }

  lemma SourcedTail(refs: seq<string>)
    requires refs != []
    ensures Sourced(refs, 0) != [] && Sourced(refs, 0)[1..] == Sourced(refs[1..], 0)
  {
  }

  lemma ReadShort(fs: FlagSet, name: char)
    requires name != '-' && name != '='
    ensures FlagLike("-" + [name])
    ensures ReadFlag(fs, "-" + [name]) ==
            match fs.find([name])
            case None => Wrong(if [name] == "help" || [name] == "h" then Help else Undefined([name]))
            case Some(flag) => if flag.kind.Switch? then Stored(fs, [name], flag, "true") else Wants([name], flag)
  {
    hide Stored, Accepts;
    assert ("-" + [name])[1..] == [name];
  }

  /** An album flag takes the token after it. */
  lemma AlbumFlagStep(numeric: (Kind, string) -> bool, args: seq<string>)
    requires |args| >= 2 && args[0] == "-a"
    ensures FlagLike(args[0])
    ensures NextFlag(ProgramFlags(numeric), args) == Takes(Assignment(Album, args[1]), 2)
  {
    ReadShort(ProgramFlags(numeric), 'a');
    assert "-" + ['a'] == "-a";
    assert Registered("a") == Some(Flag(Album, Repeated));
  }

  /** No album flag follows a positional token, yet the album loses its order to a "--". */
  lemma AlbumTerminatorExample(numeric: (Kind, string) -> bool)
    ensures var fs := ProgramFlags(numeric);
            var args := ["-a", "x", "y", "--", "z"];
            && GoParse(fs, Reordered(BOOL_FLAGS, args)) == Done([Assignment(Album, "x")], ["z", "y"])
            && InOrder(fs, args) == [FromFlag("x"), FromArgument("y"), FromArgument("z")]
  {
    hide ProgramFlags, GoParse, NextFlag, Registered;
    var fs := ProgramFlags(numeric);
    var args, tail := ["-a", "x", "y", "--", "z"], ["y", "--", "z"];
    AlbumFlagStep(numeric, args);
    assert args[2..] == tail && tail[1..] == ["--", "z"] && ["--", "z"][1..] == ["z"];
    TerminatorTail(fs);
    var a := Assignment(Album, "x");
    assert [FromFlag("x")] + [FromArgument("y"), FromArgument("z")]
        == [FromFlag("x"), FromArgument("y"), FromArgument("z")];
    assert Walked(fs, args) == Walk([a] + [], ["y"], AtTerminator(["z"]));
    assert [a] + [] == [a];
    ProgramIsConsistent(numeric);
    ParseOfReordered(fs, BOOL_FLAGS, args);
    PositionalsOfWalk(fs, BOOL_FLAGS, args);
    NoFlagsUnchanged(BOOL_FLAGS, []);
    assert ["z"][1..] == [] && ["z"] + ["y"] == ["z", "y"];
  }

  lemma TerminatorTail(fs: FlagSet)
    ensures Walked(fs, ["y", "--", "z"]) == Walk([], ["y"], AtTerminator(["z"]))
    ensures InOrder(fs, ["y", "--", "z"]) == [FromArgument("y"), FromArgument("z")]
  {
    var tail := ["--", "z"];
    assert ["y", "--", "z"][1..] == tail && tail[1..] == ["z"];
    assert ReadFlag(fs, "--") == Terminator;
    assert Walked(fs, tail) == Walk([], [], AtTerminator(["z"]));
    assert InOrder(fs, tail) == Sourced(["z"], 0) == [FromArgument("z")];
  }

  /** A last flag without its value takes a reference away from the album. */
  lemma AlbumLossExample(numeric: (Kind, string) -> bool)
    ensures var fs := ProgramFlags(numeric);
            GoParse(fs, Reordered(BOOL_FLAGS, ["-a", "x.jpg", "-a", "z.jpg", "y.jpg", "-c"])) ==
            Done([Assignment(Album, "x.jpg"), Assignment(Album, "z.jpg"), Assignment(Caption, "y.jpg")], [])
  {
    hide GoParse, NextFlag, Registered;
    var fs := ProgramFlags(numeric);
    var args := ["-a", "x.jpg", "-a", "z.jpg", "y.jpg", "-c"];
    var tail := ["-a", "z.jpg", "y.jpg", "-c"];
    AlbumFlagStep(numeric, args);
    AlbumFlagStep(numeric, tail);
    assert args[2..] == tail && tail[2..] == ["y.jpg", "-c"];
    HungryCaption(numeric);
    var x, z := Assignment(Album, "x.jpg"), Assignment(Album, "z.jpg");
    assert Walked(fs, tail) == Walk([z] + [], ["y.jpg"], AtHungry("c", Flag(Caption, Text)));
    assert [z] + [] == [z] && [x] + [z] == [x, z];
    ProgramIsConsistent(numeric);
    HungryFlagTakesFirstPositional(fs, BOOL_FLAGS, args);
    assert [x, z] + [Assignment(Caption, "y.jpg")] == [x, z, Assignment(Caption, "y.jpg")];
    assert ["y.jpg"][1..] == [];
  }

  lemma HungryCaption(numeric: (Kind, string) -> bool)
    ensures Walked(ProgramFlags(numeric), ["y.jpg", "-c"]) == Walk([], ["y.jpg"], AtHungry("c", Flag(Caption, Text)))
  {
    var fs := ProgramFlags(numeric);
    ReadShort(fs, 'c');
    assert "-" + ['c'] == "-c";
    assert ["y.jpg", "-c"][1..] == ["-c"];
    assert Registered("c") == Some(Flag(Caption, Text));
    assert Walked(fs, ["-c"]) == Walk([], [], AtHungry("c", Flag(Caption, Text)));
  }
}
