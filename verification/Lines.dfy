/** Every command line, written as settings and positional tokens up to what
    ends its reading, and what the program makes of it. The spellings, names
    and values are those of the documentation, none taken from the parser. */
module Lines {
  import opened Wrappers
  import opened Arguments
  import opened FlagParsing
  import opened Phrases
  import opened CommandLine

  const TRUTHS: set<string> := {"1", "t", "T", "true", "True", "TRUE"}
  const FALSEHOODS: set<string> := {"0", "f", "F", "false", "False", "FALSE"}

  /** The values a flag takes: any text for texts and album references, one of
      twelve spellings for switches, and what parses as a number or a duration. */
  predicate Fits(numeric: (Kind, string) -> bool, kind: Kind, value: string) {
    match kind
    case Text => true
    case Repeated => true
    case Switch => value in TRUTHS || value in FALSEHOODS
    case Int64 => numeric(Int64, value)
    case Int => numeric(Int, value)
    case Duration => numeric(Duration, value)
  }

  predicate GoodName(dashes: string, name: string) {
    && (dashes == "-" || dashes == "--")
    && name != "" && name[0] != '-' && '=' !in name
  }

  predicate Correct(numeric: (Kind, string) -> bool, p: Phrase) {
    match p
    case Argument(text) => |text| < 2 || text[0] != '-'
    case Setting(dashes, name, spelling, value) =>
      && GoodName(dashes, name)
      && Registered(name).Some?
      && var kind := Registered(name).value.kind;
         && Fits(numeric, kind, value)
         && (spelling.Alone? ==> kind.Switch? && value == "true")
         && (spelling.Apart? ==> !kind.Switch?)
  }

  ghost predicate AllCorrect(numeric: (Kind, string) -> bool, phrases: seq<Phrase>) {
    forall k :: 0 <= k < |phrases| ==> Correct(numeric, phrases[k])
  }

  /** The settings of the phrases, in order. */
  function Assigned(phrases: seq<Phrase>): seq<Assignment> {
    if phrases == [] then []
    else
      (match phrases[0]
       case Argument(_) => []
       case Setting(_, name, _, value) =>
         if Registered(name).Some? then [Assignment(Registered(name).value.target, value)] else [])
      + Assigned(phrases[1..])
  }

  /** A token, or a flag and its value, that no parse can accept. */
  datatype Mistake =
    | BadValue(dashes: string, name: string, value: string, apart: bool)
    | NoFlag(dashes: string, name: string, joined: Option<string>)
    | Garbled(token: string)

  function JoinedTo(name: string, value: Option<string>): string {
    match value case None => name case Some(v) => name + "=" + v
  }

  function MistakeTokens(m: Mistake): seq<string> {
    match m
    case BadValue(dashes, name, value, apart) =>
      if apart then [dashes + name, value] else [dashes + JoinedTo(name, Some(value))]
    case NoFlag(dashes, name, value) => [dashes + JoinedTo(name, value)]
    case Garbled(token) => [token]
  }

  predicate IsMistake(numeric: (Kind, string) -> bool, m: Mistake) {
    match m
    case BadValue(dashes, name, value, apart) =>
      && GoodName(dashes, name) && Registered(name).Some?
      && !Fits(numeric, Registered(name).value.kind, value)
      && (apart ==> !Registered(name).value.kind.Switch?)
    case NoFlag(dashes, name, _) => GoodName(dashes, name) && Registered(name).None?
    case Garbled(token) => "---" <= token || "-=" <= token || "--=" <= token
  }

  function ErrorOf(m: Mistake): ParseError {
    match m
    case BadValue(_, name, value, _) => Invalid(name, value)
    case NoFlag(_, name, _) => if name == "h" || name == "help" then Help else Undefined(name)
    case Garbled(token) => BadSyntax(token)
  }

  /** What ends the reading of a line. */
  datatype End =
    | Whole                                          // nothing: all of it is phrases
    | Mistaken(mistake: Mistake, rest: seq<string>)
    | Dashes(rest: seq<string>)                      // "--" where a flag stands
    | Hungry(dashes: string, name: string)           // a last flag without its value

  function EndTokens(e: End): seq<string> {
    match e
    case Whole => []
    case Mistaken(m, rest) => MistakeTokens(m) + rest
    case Dashes(rest) => ["--"] + rest
    case Hungry(dashes, name) => [dashes + name]
  }

  predicate IsEnd(numeric: (Kind, string) -> bool, e: End) {
    match e
    case Whole => true
    case Mistaken(m, _) => IsMistake(numeric, m)
    case Dashes(_) => true
    case Hungry(dashes, name) =>
      GoodName(dashes, name) && Registered(name).Some? && !Registered(name).value.kind.Switch?
  }

  /** The parse of a line made of `phrases` and `e`. */
  function Outcome(numeric: (Kind, string) -> bool, phrases: seq<Phrase>, e: End): Parse
    requires IsEnd(numeric, e)
  {
    var bound, texts := Assigned(phrases), Texts(phrases);
    match e
    case Whole => Done(bound, texts)
    case Mistaken(m, _) => Failed(bound, ErrorOf(m))
    case Dashes(rest) =>
      Done(bound, if rest == [] then texts
                  else [rest[0]] + FlagBlock(BOOL_FLAGS, rest[1..]) + texts + PositionalBlock(BOOL_FLAGS, rest[1..]))
    case Hungry(_, name) =>
      var flag := Registered(name).value;
      if texts == [] then Failed(bound, NeedsArgument(name))
      else if Fits(numeric, flag.kind, texts[0]) then Done(bound + [Assignment(flag.target, texts[0])], texts[1..])
      else Failed(bound, Invalid(name, texts[0]))
  }

  // ----- From the documented line to the parser's own terms -----

  lemma FitsIsAccepted(numeric: (Kind, string) -> bool, kind: Kind, value: string)
    ensures Accepts(ProgramFlags(numeric), kind, value) <==> Fits(numeric, kind, value)
  {
    assert IsBool(value) <==> value in TRUTHS || value in FALSEHOODS;
  }

  lemma CorrectIsWellSpelled(numeric: (Kind, string) -> bool, p: Phrase)
    ensures Correct(numeric, p) <==> WellSpelled(ProgramFlags(numeric), p)
  {
    hide Accepts, Fits, Registered;
    if p.Setting? && Registered(p.name).Some? { FitsIsAccepted(numeric, Registered(p.name).value.kind, p.value); }
  }

  lemma AllWellSpelled(numeric: (Kind, string) -> bool, phrases: seq<Phrase>)
    requires AllCorrect(numeric, phrases)
    ensures forall k :: 0 <= k < |phrases| ==> WellSpelled(ProgramFlags(numeric), phrases[k])
  {
    hide Correct, WellSpelled, ProgramFlags;
    forall k | 0 <= k < |phrases| ensures WellSpelled(ProgramFlags(numeric), phrases[k]) {
      CorrectIsWellSpelled(numeric, phrases[k]);
    }
  }

  lemma {:induction false} AssignedIs(numeric: (Kind, string) -> bool, phrases: seq<Phrase>)
    requires forall k :: 0 <= k < |phrases| ==> WellSpelled(ProgramFlags(numeric), phrases[k])
    ensures Assigned(phrases) == Settings(ProgramFlags(numeric), phrases)
  {
    hide Accepts, Registered;
    if phrases == [] {
    } else {
      AssignedIs(numeric, phrases[1..]);
      assert WellSpelled(ProgramFlags(numeric), phrases[0]);
    }
  }

  lemma ReadNamed(fs: FlagSet, dashes: string, name: string, value: Option<string>)
    requires GoodName(dashes, name) && fs.find(name).None?
    ensures FlagLike(dashes + JoinedTo(name, value))
    ensures ReadFlag(fs, dashes + JoinedTo(name, value)) ==
            Wrong(if name == "h" || name == "help" then Help else Undefined(name))
  {
    hide CutFrom;
    var body := JoinedTo(name, value);
    var s := dashes + body;
    assert body[0] == name[0];
    assert s[if s[1] == '-' then 2 else 1..] == body;
    if value.None? { CutFirst(name); } else { CutJoined(name, value.value); }
  }

  lemma NextOfMistake(numeric: (Kind, string) -> bool, m: Mistake, rest: seq<string>)
    requires IsMistake(numeric, m)
    ensures var line := MistakeTokens(m) + rest;
            line != [] && FlagLike(line[0]) && NextFlag(ProgramFlags(numeric), line) == Fails(ErrorOf(m))
  {
    hide ReadFlag, Accepts, Fits, Registered;
    var fs := ProgramFlags(numeric);
    match m
    case BadValue(dashes, name, value, apart) =>
      assert JoinedTo(name, Some(value)) == name + "=" + value;
      ReadSpelled(fs, dashes, name, value);
      FitsIsAccepted(numeric, Registered(name).value.kind, value);
    case NoFlag(dashes, name, value) => ReadNamed(fs, dashes, name, value);
    case Garbled(token) => BadSyntaxExactly(fs, token);
  }

  function StopOf(e: End): Stop
    requires e.Hungry? ==> Registered(e.name).Some?
  {
    match e
    case Whole => AtEnd
    case Mistaken(m, _) => AtError(ErrorOf(m))
    case Dashes(rest) => AtTerminator(rest)
    case Hungry(_, name) => AtHungry(name, Registered(name).value)
  }

  lemma WalkOfEnd(numeric: (Kind, string) -> bool, e: End)
    requires IsEnd(numeric, e)
    ensures Walked(ProgramFlags(numeric), EndTokens(e)) == Walk([], [], StopOf(e))
  {
    hide ReadFlag, NextFlag, Registered, ErrorOf, MistakeTokens, IsMistake;
    var fs, line := ProgramFlags(numeric), EndTokens(e);
    match e
    case Whole =>
    case Mistaken(m, rest) =>
      NextOfMistake(numeric, m, rest);
      WalkStops(fs, line);
    case Dashes(rest) =>
      BadSyntaxExactly(fs, "--");
      assert line[1..] == rest;
      NextOfDashes(fs, rest);
      WalkStops(fs, line);
    case Hungry(dashes, name) =>
      ReadSpelled(fs, dashes, name, "");
      NextOfHungry(fs, dashes + name);
      WalkStops(fs, line);
  }

  lemma NextOfDashes(fs: FlagSet, rest: seq<string>)
    ensures FlagLike("--") && NextFlag(fs, ["--"] + rest) == EndsFlags
  {
    BadSyntaxExactly(fs, "--");
  }

  lemma NextOfHungry(fs: FlagSet, s: string)
    requires FlagLike(s) && ReadFlag(fs, s).Wants?
    ensures NextFlag(fs, [s]) == Starves(ReadFlag(fs, s).name, ReadFlag(fs, s).flag)
  {
  }

  // ----- What the program makes of a line -----

  /** The first thing that ends the reading of a line decides the parse: what is
      wrong first is the error, with everything set before it, wherever positional
      tokens stand; a version token anywhere takes precedence. */
  lemma ProgramParse(numeric: (Kind, string) -> bool, phrases: seq<Phrase>, e: End)
    requires AllCorrect(numeric, phrases) && IsEnd(numeric, e)
    ensures var args := Line(phrases) + EndTokens(e);
            && GoParse(ProgramFlags(numeric), Reordered(BOOL_FLAGS, args)) == Outcome(numeric, phrases, e)
            && Launched(numeric, args) ==
               if "-v" in args || "--version" in args then PrintsVersion else Options(Outcome(numeric, phrases, e))
  {
    hide GoParse, Walked, Reordered, WellSpelled, FlagBlock, PositionalBlock, Accepts, Fits, Registered, Correct;
    hide EndTokens, Line, Assigned, Texts, ProgramFlags, Consistent, IsMistake;
    var fs, args := ProgramFlags(numeric), Line(phrases) + EndTokens(e);
    AllWellSpelled(numeric, phrases);
    AssignedIs(numeric, phrases);
    WalkOfLine(fs, phrases, EndTokens(e));
    WalkOfEnd(numeric, e);
    ProgramIsConsistent(numeric);
    ParseOfReordered(fs, BOOL_FLAGS, args);
    PositionalsOfWalk(fs, BOOL_FLAGS, args);
    var bound, texts := Assigned(phrases), Texts(phrases);
    assert bound + [] == bound && texts + [] == texts;
    OutcomeIsSettled(numeric, phrases, e);
  }

  lemma OutcomeIsSettled(numeric: (Kind, string) -> bool, phrases: seq<Phrase>, e: End)
    requires IsEnd(numeric, e)
    ensures var fs, bound, texts := ProgramFlags(numeric), Assigned(phrases), Texts(phrases);
            var w := Walk(bound, texts, StopOf(e));
            !w.stop.AtError? ==>
              Settled(fs, BOOL_FLAGS, w, texts + LaterPositionals(BOOL_FLAGS, w.stop)) == Outcome(numeric, phrases, e)
    ensures StopOf(e).AtError? ==> Outcome(numeric, phrases, e) == Failed(Assigned(phrases), StopOf(e).error)
  {
    hide FlagBlock, PositionalBlock, Accepts, Fits, Registered, Assigned, Texts, ErrorOf, IsMistake;
    var bound, texts := Assigned(phrases), Texts(phrases);
    assert texts + [] == texts;
    match e
    case Whole =>
    case Mistaken(_, _) =>
    case Dashes(rest) =>
      if rest != [] {
        var head, tail := [rest[0]] + FlagBlock(BOOL_FLAGS, rest[1..]), PositionalBlock(BOOL_FLAGS, rest[1..]);
        assert head + (texts + tail) == head + texts + tail;
      }
    case Hungry(_, name) =>
      if texts != [] { FitsIsAccepted(numeric, Registered(name).value.kind, texts[0]); }
  }

  // ----- Every line is one of these -----

  lemma SplitFlag(s: string) returns (dashes: string, name: string, value: Option<string>)
    requires FlagLike(s) && s != "--" && !("---" <= s || "-=" <= s || "--=" <= s)
    ensures GoodName(dashes, name) && s == dashes + JoinedTo(name, value)
  {
    var n := if s[1] == '-' then 2 else 1;
    var body := s[n..];
    assert s[..n] == if n == 1 then "-" else "--";
    assert |s| > n;
    assert body[0] != '-' && body[0] != '=';
    var (key, v) := CutFrom(body, 1);
    dashes, name, value := s[..n], key, v;
    KeyIsGood(body);
  }

  lemma KeyIsGood(body: string)
    requires body != "" && body[0] != '-' && body[0] != '='
    ensures var (key, value) := CutFrom(body, 1);
            key != "" && key[0] != '-' && '=' !in key && body == JoinedTo(key, value)
  {
    hide CutFrom;
    var (key, value) := CutFrom(body, 1);
    assert body == [body[0]] + body[1..];
    assert key == [key[0]] + key[1..];
  }

  /** Every command line consists of correct phrases and one of the four ends. */
  lemma {:induction false} EveryLine(numeric: (Kind, string) -> bool, args: seq<string>)
    returns (phrases: seq<Phrase>, e: End)
    ensures AllCorrect(numeric, phrases) && IsEnd(numeric, e) && args == Line(phrases) + EndTokens(e)
    decreases |args|
  {
    hide Correct, Spelled, IsEnd;
    if args == [] {
      phrases, e := [], Whole;
      NoTokens(numeric);
    } else {
      hide EndTokens;
      var p, end := FirstPhrase(numeric, args);
      if p.None? {
        phrases, e := [], end;
        assert [] + args == args;
      } else {
        var n := |Spelled(p.value)|;
        var more;
        more, e := EveryLine(numeric, args[n..]);
        phrases := [p.value] + more;
        assert phrases[1..] == more && phrases[0] == p.value;
        assert args == Spelled(p.value) + (Line(more) + EndTokens(e));
      }
    }
  }

  lemma NoTokens(numeric: (Kind, string) -> bool)
    ensures IsEnd(numeric, Whole) && EndTokens(Whole) == []
  {
  }

  /** A line begins with a correct phrase, or with what ends it. */
  lemma FirstPhrase(numeric: (Kind, string) -> bool, args: seq<string>) returns (p: Option<Phrase>, e: End)
    requires args != []
    ensures p.Some? ==> Correct(numeric, p.value) && Spelled(p.value) <= args && Spelled(p.value) != []
    ensures p.None? ==> IsEnd(numeric, e) && args == EndTokens(e)
  {
    hide Registered, Fits;
    p, e := None, Whole;
    var s, rest := args[0], args[1..];
    assert args == [s] + rest;
    if !FlagLike(s) {
      p := Some(Argument(s));
    } else if s == "--" {
      e := Dashes(rest);
    } else if "---" <= s || "-=" <= s || "--=" <= s {
      e := Mistaken(Garbled(s), rest);
    } else {
      var dashes, name, value := SplitFlag(s);
      if Registered(name).None? {
        e := Mistaken(NoFlag(dashes, name, value), rest);
      } else {
        p, e := FirstSetting(numeric, dashes, name, value, rest);
      }
    }
  }

  lemma FirstSetting(numeric: (Kind, string) -> bool, dashes: string, name: string, value: Option<string>,
                     rest: seq<string>)
    returns (p: Option<Phrase>, e: End)
    requires GoodName(dashes, name) && Registered(name).Some?
    ensures var args := [dashes + JoinedTo(name, value)] + rest;
            && (p.Some? ==> Correct(numeric, p.value) && Spelled(p.value) <= args && Spelled(p.value) != [])
            && (p.None? ==> IsEnd(numeric, e) && args == EndTokens(e))
  {
    assert Fits(numeric, Switch, "true");
    hide Registered, Fits;
    var args := [dashes + JoinedTo(name, value)] + rest;
    p, e := None, Whole;
    var kind := Registered(name).value.kind;
    if value.Some? {
      assert JoinedTo(name, value) == name + "=" + value.value;
      if Fits(numeric, kind, value.value) {
        p := Some(Setting(dashes, name, Joined, value.value));
      } else {
        e := Mistaken(BadValue(dashes, name, value.value, false), rest);
      }
    } else if kind.Switch? {
      p := Some(Setting(dashes, name, Alone, "true"));
    } else if rest == [] {
      e := Hungry(dashes, name);
    } else {
      assert args == [dashes + name, rest[0]] + rest[1..];
      if Fits(numeric, kind, rest[0]) {
        p := Some(Setting(dashes, name, Apart, rest[0]));
      } else {
        e := Mistaken(BadValue(dashes, name, rest[0], true), rest[1..]);
      }
    }
  }

  // ----- The documented options -----

  /** The undocumented spelling of a documented name without its hyphens. */
  function Alias(name: string): string {
    match name
    case "fileid" => "file-id"
    case "chatid" => "chat-id"
    case "parsemode" => "parse-mode"
    case "noretry" => "no-retry"
    case "discoverchatid" => "discover-chat-id"
    case "basewait" => "base-wait"
    case _ => name
  }

  predicate Names(row: set<string>, name: string) {
    Alias(name) in row
  }

  /** The rows of the option table that take no value, under all their names. */
  lemma SwitchTable(name: string)
    ensures Names({"json", "j"}, name) ==> Registered(name) == Some(Flag(JsonOut, Switch))
    ensures Names({"no-trim"}, name) ==> Registered(name) == Some(Flag(NoTrim, Switch))
    ensures Names({"whoami", "w"}, name) ==> Registered(name) == Some(Flag(Whoami, Switch))
    ensures Names({"no-retry", "n"}, name) ==> Registered(name) == Some(Flag(NoRetry, Switch))
    ensures Names({"discover-chat-id", "d"}, name) ==> Registered(name) == Some(Flag(Discover, Switch))
    ensures Names({"silent", "S"}, name) ==> Registered(name) == Some(Flag(Silent, Switch))
    ensures Names({"dry-run", "D"}, name) ==> Registered(name) == Some(Flag(DryRun, Switch))
  {
  }

  /** The rows that take one. */
  lemma ValueTable(name: string)
    ensures Names({"message", "m"}, name) ==> Registered(name) == Some(Flag(Message, Text))
    ensures Names({"file", "f"}, name) ==> Registered(name) == Some(Flag(FilePath, Text))
    ensures Names({"url", "u"}, name) ==> Registered(name) == Some(Flag(FileURL, Text))
    ensures Names({"file-id", "F"}, name) ==> Registered(name) == Some(Flag(FileID, Text))
    ensures Names({"album", "a"}, name) ==> Registered(name) == Some(Flag(Album, Repeated))
    ensures Names({"type", "t"}, name) ==> Registered(name) == Some(Flag(FileType, Text))
    ensures Names({"caption", "c"}, name) ==> Registered(name) == Some(Flag(Caption, Text))
    ensures Names({"parse-mode", "p"}, name) ==> Registered(name) == Some(Flag(ParseMode, Text))
    ensures Names({"reply-to", "r"}, name) ==> Registered(name) == Some(Flag(ReplyTo, Int64))
    ensures Names({"token", "T"}, name) ==> Registered(name) == Some(Flag(Token, Text))
  {
  }

  /** The other rows that take one. */
  lemma MoreValues(name: string)
    ensures Names({"chat-id", "C"}, name) ==> Registered(name) == Some(Flag(ChatID, Text))
    ensures Names({"retries", "R"}, name) ==> Registered(name) == Some(Flag(Retries, Int))
    ensures Names({"base-wait", "B"}, name) ==> Registered(name) == Some(Flag(BaseWait, Duration))
    ensures Names({"offset", "o"}, name) ==> Registered(name) == Some(Flag(Offset, Int64))
    ensures Names({"proxy", "P"}, name) ==> Registered(name) == Some(Flag(Proxy, Text))
    ensures Names({"base-url", "U"}, name) ==> Registered(name) == Some(Flag(BaseURL, Text))
    ensures Names({"completion", "A"}, name) ==> Registered(name) == Some(Flag(Completion, Text))
  {
  }

  predicate Documented(name: string) {
    || name in {"message", "file", "url", "file-id", "album", "type", "caption", "parse-mode", "reply-to", "token"}
    || name in {"chat-id", "retries", "base-wait", "offset", "proxy", "base-url", "completion", "json", "no-trim"}
    || name in {"whoami", "no-retry", "discover-chat-id", "silent", "dry-run"}
    || name in {"m", "f", "u", "F", "a", "t", "c", "p", "r", "T", "C", "R", "B", "o", "P", "U", "A"}
    || name in {"j", "w", "n", "d", "S", "D"}
  }

  /** No other name is registered. */
  lemma NothingElse(name: string)
    ensures Registered(name).Some? <==> Documented(Alias(name))
  {
    SwitchTable(name);
    ValueTable(name);
    MoreValues(name);
  }
}
