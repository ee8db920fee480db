/** Go's flag.FlagSet.Parse on token sequences, a direct parse-anywhere parser,
    and exactly when the rewriting makes the first compute the second. */
module FlagParsing {
  import opened Wrappers
  import opened Arguments

  /** The option variables of cmd/tg-notify/main.go that flags are bound to. */
  datatype Target =
    | Message | FilePath | FileURL | FileID | FileType | Caption | Token | ChatID | ParseMode
    | ReplyTo | Whoami | JsonOut | NoTrim | Offset | Album | NoRetry | Retries | BaseWait
    | Discover | Silent | Proxy | BaseURL | DryRun | Completion

  datatype Kind = Switch | Text | Repeated | Int64 | Int | Duration

  datatype Flag = Flag(target: Target, kind: Kind)

  /** The registered flags, and which texts the kinds other than plain text accept. */
  datatype FlagSet = FlagSet(find: string -> Option<Flag>, parses: (Kind, string) -> bool)

  datatype Assignment = Assignment(target: Target, value: string)

  datatype ParseError =
    | Help
    | BadSyntax(token: string)
    | Undefined(name: string)
    | NeedsArgument(name: string)
    | Invalid(name: string, value: string)

  datatype Parse =
    | Done(bound: seq<Assignment>, rest: seq<string>)
    | Failed(bound: seq<Assignment>, error: ParseError)

  /** What one flag token says by itself. */
  datatype Reading =
    | Terminator
    | Wrong(error: ParseError)
    | Assigns(assignment: Assignment)
    | Wants(name: string, flag: Flag)

  predicate Accepts(fs: FlagSet, kind: Kind, value: string) {
    kind.Text? || kind.Repeated? || fs.parses(kind, value)
  }

  /** The name and the value around the first '=' at index `i` or later. */
  function CutFrom(name: string, i: nat): (r: (string, Option<string>))
    requires i <= |name|
    ensures '=' !in name[i..] ==> r == (name, None)
    ensures '=' in name[i..] ==> r.1.Some? && i <= |r.0| && name == r.0 + "=" + r.1.value && '=' !in r.0[i..]
    decreases |name| - i
  {
    if i == |name| then (name, None)
    else if name[i] == '=' then (name[..i], Some(name[i + 1..]))
    else
      assert name[i..] == [name[i]] + name[i + 1..];
      CutFrom(name, i + 1)
  }

  function ReadFlag(fs: FlagSet, s: string): Reading
    requires FlagLike(s)
  {
    var minuses := if s[1] == '-' then 2 else 1;
    var name := s[minuses..];
    if minuses == 2 && |s| == 2 then Terminator
    else if |name| == 0 || name[0] == '-' || name[0] == '=' then Wrong(BadSyntax(s))
    else
      var (key, value) := CutFrom(name, 1);
      match fs.find(key)
      case None => Wrong(if key == "help" || key == "h" then Help else Undefined(key))
      case Some(flag) =>
        if flag.kind.Switch? then
          Stored(fs, key, flag, if value.None? then "true" else value.value)
        else if value.None? then Wants(key, flag)
        else Stored(fs, key, flag, value.value)
  }

  function Stored(fs: FlagSet, name: string, flag: Flag, value: string): Reading {
    if Accepts(fs, flag.kind, value) then Assigns(Assignment(flag.target, value)) else Wrong(Invalid(name, value))
  }

  function After(a: Assignment, p: Parse): Parse {
    p.(bound := [a] + p.bound)
  }

  /** The outcome of FlagSet.parseOne on a line that starts with a flag token. */
  datatype Next =
    | EndsFlags
    | Fails(error: ParseError)
    | Takes(assignment: Assignment, used: nat)
    | Starves(name: string, flag: Flag)  // no token is left for its value

  function NextFlag(fs: FlagSet, args: seq<string>): (r: Next)
    requires args != [] && FlagLike(args[0])
    ensures r.Takes? ==> 1 <= r.used <= |args| && r.used <= 2
    ensures r.Starves? ==> |args| == 1
  {
    match ReadFlag(fs, args[0])
    case Terminator => EndsFlags
    case Wrong(e) => Fails(e)
    case Assigns(a) => Takes(a, 1)
    case Wants(name, flag) =>
      if |args| == 1 then Starves(name, flag)
      else
        match Stored(fs, name, flag, args[1])
        case Assigns(a) => Takes(a, 2)
        case _ => Fails(Invalid(name, args[1]))
  }

  /** FlagSet.Parse: flags until the first positional token or "--". */
  function GoParse(fs: FlagSet, args: seq<string>): Parse {
    if args == [] || !FlagLike(args[0]) then Done([], args)
    else
      match NextFlag(fs, args)
      case EndsFlags => Done([], args[1..])
      case Fails(e) => Failed([], e)
      case Starves(name, _) => Failed([], NeedsArgument(name))
      case Takes(a, n) => After(a, GoParse(fs, args[n..]))
  }

  // ----- The direct parser -----

  /** How a left-to-right reading of the whole line stops. */
  datatype Stop =
    | AtEnd
    | AtError(error: ParseError)
    | AtTerminator(rest: seq<string>)
    | AtHungry(name: string, flag: Flag)  // a last flag without its value

  datatype Walk = Walk(bound: seq<Assignment>, positional: seq<string>, stop: Stop)

  function Walked(fs: FlagSet, args: seq<string>): Walk {
    if args == [] then Walk([], [], AtEnd)
    else if !FlagLike(args[0]) then
      var w := Walked(fs, args[1..]);
      w.(positional := [args[0]] + w.positional)
    else
      match NextFlag(fs, args)
      case EndsFlags => Walk([], [], AtTerminator(args[1..]))
      case Fails(e) => Walk([], [], AtError(e))
      case Starves(name, flag) => Walk([], [], AtHungry(name, flag))
      case Takes(a, n) =>
        var w := Walked(fs, args[n..]);
        w.(bound := [a] + w.bound)
  }

  /** Parse flags anywhere: positional tokens are set aside, "--" ends the flags. */
  function ParseAnywhere(fs: FlagSet, args: seq<string>): Parse {
    var w := Walked(fs, args);
    match w.stop
    case AtEnd => Done(w.bound, w.positional)
    case AtError(e) => Failed(w.bound, e)
    case AtTerminator(rest) => Done(w.bound, w.positional + rest)
    case AtHungry(name, _) => Failed(w.bound, NeedsArgument(name))
  }

  // ----- The rewriting and the flag package agree on which flags take a value -----

  ghost predicate Consistent(fs: FlagSet, bools: set<string>) {
    && "" !in bools
    && forall name ::
         fs.find(name).Some? ==> (fs.find(name).value.kind.Switch? <==> name in bools)
  }

  lemma TrimmedName(s: string, n: nat)
    requires 1 <= n <= 2 && n <= |s| && s[0] == '-' && (n == 2 ==> s[1] == '-')
    requires n < |s| ==> s[n] != '-'
    ensures TrimDashes(s) == s[n..]
  {
    assert TrimDashes(s) == TrimDashes(s[1..]);
    if n == 2 {
      assert s[1..][1..] == s[2..];
      assert TrimDashes(s[1..]) == TrimDashes(s[2..]);
    }
  }

  lemma CutFirst(name: string)
    requires name != "" && name[0] != '='
    ensures CutFrom(name, 1).1.None? <==> '=' !in name
    ensures '=' !in name ==> CutFrom(name, 1).0 == name
  {
  }

  lemma ReadingsInStep(fs: FlagSet, bools: set<string>, s: string)
    requires Consistent(fs, bools) && FlagLike(s)
    ensures ReadFlag(fs, s).Assigns? ==> !TakesNext(bools, s)
    ensures ReadFlag(fs, s).Wants? || ReadFlag(fs, s).Terminator? ==> TakesNext(bools, s)
  {
    hide CutFrom, TrimDashes, Accepts;
    var n := if s[1] == '-' then 2 else 1;
    var name := s[n..];
    if name == "" || (name[0] != '-' && name[0] != '=') {
      TrimmedName(s, n);
      if name != "" { CutFirst(name); }
    }
  }

  /** parseOne and the rewriting move over the same tokens. */
  lemma InStep(fs: FlagSet, bools: set<string>, args: seq<string>)
    requires Consistent(fs, bools) && args != [] && FlagLike(args[0])
    ensures var next := NextFlag(fs, args);
            && (next.Takes? ==> next.used == Span(bools, args))
            && (next.Starves? || next.EndsFlags? ==> TakesNext(bools, args[0]))
  {
    hide ReadFlag, Stored, TakesNext;
    ReadingsInStep(fs, bools, args[0]);
  }

  /** parseOne looks no further than the tokens it takes. */
  lemma NextIsLocal(fs: FlagSet, bools: set<string>, args: seq<string>, line: seq<string>)
    requires Consistent(fs, bools) && args != [] && FlagLike(args[0])
    requires Span(bools, args) <= |line| && line[..Span(bools, args)] == args[..Span(bools, args)]
    requires !NextFlag(fs, args).Starves?
    ensures NextFlag(fs, line) == NextFlag(fs, args)
  {
    hide ReadFlag, Stored, TakesNext;
    var n := Span(bools, args);
    ReadingsInStep(fs, bools, args[0]);
    assert line[0] == line[..n][0] == args[0];
    if n == 2 { assert line[1] == line[..n][1] == args[1]; }
  }

  /** What follows the flag that stops a reading, after reordering. */
  function Settled(fs: FlagSet, bools: set<string>, w: Walk, tail: seq<string>): Parse {
    match w.stop
    case AtEnd => Done(w.bound, tail)
    case AtError(e) => Failed(w.bound, e)
    case AtTerminator(rest) =>
      Done(w.bound, (if rest == [] then [] else [rest[0]] + FlagBlock(bools, rest[1..])) + tail)
    case AtHungry(name, flag) =>
      if tail == [] then Failed(w.bound, NeedsArgument(name))
      else
        match Stored(fs, name, flag, tail[0])
        case Assigns(a) => Done(w.bound + [a], tail[1..])
        case other => Failed(w.bound, Invalid(name, tail[0]))
  }

  /** Go's parser on the flag block, followed by any positional tokens. */
  lemma {:induction false} ParseOfFlagBlock(fs: FlagSet, bools: set<string>, args: seq<string>, tail: seq<string>)
    requires Consistent(fs, bools) && NoFlags(tail)
    ensures GoParse(fs, FlagBlock(bools, args) + tail) == Settled(fs, bools, Walked(fs, args), tail)
    decreases |args|
  {
    hide NextFlag, Stored, TakesNext, Consistent, Settled, FlagBlock, Walked, GoParse;
    if args == [] {
      assert FlagBlock(bools, args) == [] by { NoFlagsUnchanged(bools, args); }
      assert [] + tail == tail;
      ParseOfNothing(fs, bools, tail);
    } else if !FlagLike(args[0]) {
      FlagBlockStep(bools, args);
      ParseOfFlagBlock(fs, bools, args[1..], tail);
      SettledIgnoresPositional(fs, bools, args, tail);
    } else {
      var n := Span(bools, args);
      FlagBlockStep(bools, args);
      InStep(fs, bools, args);
      if NextFlag(fs, args).Takes? {
        ParseOfFlagBlock(fs, bools, args[n..], tail);
        TakenStep(fs, bools, args, tail, FlagBlock(bools, args[n..]) + tail);
      } else {
        StoppingStep(fs, bools, args, tail);
      }
      assert args[..n] + (FlagBlock(bools, args[n..]) + tail) == FlagBlock(bools, args) + tail;
    }
  }

  lemma ParseOfNothing(fs: FlagSet, bools: set<string>, tail: seq<string>)
    requires NoFlags(tail)
    ensures GoParse(fs, tail) == Settled(fs, bools, Walked(fs, []), tail)
  {
  }

  lemma SettledIgnoresPositional(fs: FlagSet, bools: set<string>, args: seq<string>, tail: seq<string>)
    requires args != [] && !FlagLike(args[0])
    ensures Settled(fs, bools, Walked(fs, args), tail) == Settled(fs, bools, Walked(fs, args[1..]), tail)
  {
  }

  lemma TakenStep(fs: FlagSet, bools: set<string>, args: seq<string>, tail: seq<string>, more: seq<string>)
    requires Consistent(fs, bools) && args != [] && FlagLike(args[0])
    requires NextFlag(fs, args).Takes?
    requires GoParse(fs, more) == Settled(fs, bools, Walked(fs, args[Span(bools, args)..]), tail)
    ensures GoParse(fs, args[..Span(bools, args)] + more) == Settled(fs, bools, Walked(fs, args), tail)
  {
    hide NextFlag, TakesNext, Consistent, Stored, FlagBlock;
    var n := Span(bools, args);
    var line := args[..n] + more;
    assert line[..n] == args[..n] && line[n..] == more && line[0] == args[0];
    InStep(fs, bools, args);
    NextIsLocal(fs, bools, args, line);
    assert GoParse(fs, line) == After(NextFlag(fs, args).assignment, GoParse(fs, more));
  }

  lemma StoppingStep(fs: FlagSet, bools: set<string>, args: seq<string>, tail: seq<string>)
    requires Consistent(fs, bools) && args != [] && FlagLike(args[0]) && NoFlags(tail)
    requires !NextFlag(fs, args).Takes?
    ensures GoParse(fs, FlagBlock(bools, args) + tail) == Settled(fs, bools, Walked(fs, args), tail)
  {
    hide NextFlag, TakesNext, Consistent, Stored, Walked;
    var n := Span(bools, args);
    var more := FlagBlock(bools, args[n..]) + tail;
    var line := FlagBlock(bools, args) + tail;
    assert line == args[..n] + more;
    assert line[..n] == args[..n] && line[0] == args[0];
    InStep(fs, bools, args);
    WalkStops(fs, args);
    if NextFlag(fs, args).Starves? {
      assert args[n..] == [] && args[..1] == [args[0]] == args && line == [args[0]] + tail;
      HungryTakesFirst(fs, args[0], tail);
    } else {
      NextIsLocal(fs, bools, args, line);
      if NextFlag(fs, args).EndsFlags? {
        AfterTerminator(bools, args, tail);
      }
    }
  }

  lemma WalkStops(fs: FlagSet, args: seq<string>)
    requires args != [] && FlagLike(args[0])
    ensures var next := NextFlag(fs, args);
            && (next.Starves? ==> Walked(fs, args) == Walk([], [], AtHungry(next.name, next.flag)))
            && (next.EndsFlags? ==> Walked(fs, args) == Walk([], [], AtTerminator(args[1..])))
            && (next.Fails? ==> Walked(fs, args) == Walk([], [], AtError(next.error)))
  {
  }

  lemma AfterTerminator(bools: set<string>, args: seq<string>, tail: seq<string>)
    requires args != [] && FlagLike(args[0]) && TakesNext(bools, args[0])
    ensures var rest := args[1..];
            (FlagBlock(bools, args) + tail)[1..] ==
            (if rest == [] then [] else [rest[0]] + FlagBlock(bools, rest[1..])) + tail
  {
  }

  lemma HungryTakesFirst(fs: FlagSet, s: string, tail: seq<string>)
    requires FlagLike(s) && NextFlag(fs, [s]).Starves? && NoFlags(tail)
    ensures var Starves(name, flag) := NextFlag(fs, [s]);
            GoParse(fs, [s] + tail) ==
            if tail == [] then Failed([], NeedsArgument(name))
            else match Stored(fs, name, flag, tail[0])
                 case Assigns(a) => Done([a], tail[1..])
                 case _ => Failed([], Invalid(name, tail[0]))
  {
  }

  /** The positional tokens the rewriting finds after the flag that stops a reading. */
  function LaterPositionals(bools: set<string>, stop: Stop): seq<string> {
    if stop.AtTerminator? && stop.rest != [] then PositionalBlock(bools, stop.rest[1..]) else []
  }

  /** The positional block, in terms of the direct reading. */
  lemma {:induction false} PositionalsOfWalk(fs: FlagSet, bools: set<string>, args: seq<string>)
    requires Consistent(fs, bools)
    ensures var w := Walked(fs, args);
            !w.stop.AtError? ==> PositionalBlock(bools, args) == w.positional + LaterPositionals(bools, w.stop)
    decreases |args|
  {
    hide NextFlag, TakesNext, Consistent, LaterPositionals;
    if args == [] {
      assert LaterPositionals(bools, AtEnd) == [] by { PositionalsAtEnd(bools); }
    } else if !FlagLike(args[0]) {
      PositionalsOfWalk(fs, bools, args[1..]);
    } else {
      InStep(fs, bools, args);
      if NextFlag(fs, args).Takes? {
        PositionalsOfWalk(fs, bools, args[Span(bools, args)..]);
      } else if !NextFlag(fs, args).Fails? {
        WalkStops(fs, args);
        PositionalsAtStop(fs, bools, args);
      }
    }
  }

  lemma PositionalsAtEnd(bools: set<string>)
    ensures LaterPositionals(bools, AtEnd) == []
  {
  }

  lemma PositionalsAtStop(fs: FlagSet, bools: set<string>, args: seq<string>)
    requires args != [] && FlagLike(args[0]) && Consistent(fs, bools)
    requires NextFlag(fs, args).EndsFlags? || NextFlag(fs, args).Starves?
    ensures PositionalBlock(bools, args) == LaterPositionals(bools, Walked(fs, args).stop)
  {
    hide NextFlag, TakesNext, Consistent, Walked;
    InStep(fs, bools, args);
    WalkStops(fs, args);
    if |args| > 1 { assert args[1..][1..] == args[2..]; }
  }

  /** What the program's parse of a reordered line is, on every command line. */
  lemma ParseOfReordered(fs: FlagSet, bools: set<string>, args: seq<string>)
    requires Consistent(fs, bools)
    ensures GoParse(fs, Reordered(bools, args)) ==
            Settled(fs, bools, Walked(fs, args), PositionalBlock(bools, args))
  {
    PositionalsAreNotFlags(bools, args);
    ParseOfFlagBlock(fs, bools, args, PositionalBlock(bools, args));
  }

  /** The lines on which flags really parse anywhere. The two exceptions are a
      last flag lacking its value after some positional token, and "--" in flag
      position, unless the tokens after it happen to keep their order. */
  predicate Faithful(bools: set<string>, w: Walk) {
    match w.stop
    case AtEnd => true
    case AtError(_) => true
    case AtHungry(_, _) => w.positional == []
    case AtTerminator(rest) =>
      || rest == []
      || (w.positional == [] && FlagsFirst(bools, rest[1..]))
      || ((forall k :: 1 <= k < |rest| ==> !FlagLike(rest[k]))
          && forall k :: 0 <= k < |w.positional| ==> w.positional[k] == rest[0])
  }

  /** For all command lines: Go's parse of the reordered line is the direct
      parse of the line itself (assignments, positionals and first error alike)
      if and only if the line is faithful. */
  lemma ParsesAnywhere(fs: FlagSet, bools: set<string>, args: seq<string>)
    requires Consistent(fs, bools)
    ensures GoParse(fs, Reordered(bools, args)) == ParseAnywhere(fs, args)
            <==> Faithful(bools, Walked(fs, args))
  {
    hide GoParse, Walked, Stored, FlagBlock, PositionalBlock, FlagsFirst, Consistent, Reordered;
    ParseOfReordered(fs, bools, args);
    PositionalsOfWalk(fs, bools, args);
    var w := Walked(fs, args);
    if w.stop.AtTerminator? && w.stop.rest != [] {
      WalkedPositionalsAreNotFlags(fs, args);
      TerminatorOrder(bools, w.positional, w.stop.rest);
      var rest := w.stop.rest;
      assert [rest[0]] + FlagBlock(bools, rest[1..]) + (w.positional + PositionalBlock(bools, rest[1..]))
          == [rest[0]] + FlagBlock(bools, rest[1..]) + w.positional + PositionalBlock(bools, rest[1..]);
    }
  }

  lemma {:induction false} WalkedPositionalsAreNotFlags(fs: FlagSet, args: seq<string>)
    ensures NoFlags(Walked(fs, args).positional)
    decreases |args|
  {
    if args == [] {
    } else {
      WalkedPositionalsAreNotFlags(fs, args[1..]);
      if |args| > 1 { WalkedPositionalsAreNotFlags(fs, args[2..]); }
    }
  }

  /** When the tokens left by a "--" come out in command-line order. */
  lemma TerminatorOrder(bools: set<string>, before: seq<string>, rest: seq<string>)
    requires rest != [] && NoFlags(before)
    ensures [rest[0]] + FlagBlock(bools, rest[1..]) + before + PositionalBlock(bools, rest[1..]) == before + rest
            <==> || (before == [] && FlagsFirst(bools, rest[1..]))
                 || ((forall k :: 1 <= k < |rest| ==> !FlagLike(rest[k]))
                     && forall k :: 0 <= k < |before| ==> before[k] == rest[0])
  {
    hide FlagBlock, PositionalBlock, FlagsFirst;
    var x, more := rest[0], rest[1..];
    assert rest == [x] + more;
    assert NoFlags(more) <==> forall k :: 1 <= k < |rest| ==> !FlagLike(rest[k]) by {
      if forall k :: 1 <= k < |rest| ==> !FlagLike(rest[k]) {
        forall k | 0 <= k < |more| ensures !FlagLike(more[k]) { assert more[k] == rest[k + 1]; }
      }
    }
    if before == [] {
      OrderWithoutEarlier(bools, x, more);
      assert [x] + FlagBlock(bools, more) + before + PositionalBlock(bools, more)
          == [x] + (FlagBlock(bools, more) + PositionalBlock(bools, more));
      assert before + rest == [x] + more;
    } else if NoFlags(more) {
      NoFlagsUnchanged(bools, more);
      assert [x] + [] + before + more == [x] + before + more;
      assert before + rest == before + [x] + more;
      OrderWithoutFlags(before, x, more);
    } else {
      OrderBroken(bools, before, x, more);
    }
  }

  lemma OrderWithoutEarlier(bools: set<string>, x: string, more: seq<string>)
    ensures [x] + Reordered(bools, more) == [x] + more <==> FlagsFirst(bools, more)
    ensures NoFlags(more) ==> FlagsFirst(bools, more)
  {
    hide FlagBlock, PositionalBlock, FlagsFirst;
    FlagsFirstExactly(bools, more);
    assert ([x] + Reordered(bools, more))[1..] == Reordered(bools, more) && ([x] + more)[1..] == more;
    if NoFlags(more) {
      NoFlagsUnchanged(bools, more);
      assert [] + more == more;
    }
  }

  lemma OrderWithoutFlags(before: seq<string>, x: string, more: seq<string>)
    ensures [x] + before + more == before + [x] + more <==> forall k :: 0 <= k < |before| ==> before[k] == x
  {
    if [x] + before + more == before + [x] + more { RotatedIsConstant(before, x, more); }
    if forall k :: 0 <= k < |before| ==> before[k] == x {
      assert [x] + before == before + [x];
    }
  }

  lemma OrderBroken(bools: set<string>, before: seq<string>, x: string, more: seq<string>)
    requires before != [] && NoFlags(before) && !NoFlags(more)
    ensures [x] + FlagBlock(bools, more) + before + PositionalBlock(bools, more) != before + ([x] + more)
  {
    FlagBlockStartsWithFlag(bools, more);
    var left := [x] + FlagBlock(bools, more) + before + PositionalBlock(bools, more);
    var right := before + ([x] + more);
    assert left[0] == x && left[1] == FlagBlock(bools, more)[0] && FlagLike(left[1]);
    assert right[0] == before[0] && right[1] == (if |before| > 1 then before[1] else x);
  }

  lemma RotatedIsConstant(before: seq<string>, x: string, more: seq<string>)
    requires [x] + before + more == before + [x] + more
    ensures forall k :: 0 <= k < |before| ==> before[k] == x
  {
    var left, right := [x] + before + more, before + [x] + more;
    var k := 0;
    while k < |before|
      invariant 0 <= k <= |before|
      invariant forall j :: 0 <= j < k ==> before[j] == x
    {
      assert left[k] == (if k == 0 then x else before[k - 1]);
      assert right[k] == before[k];
      k := k + 1;
    }
  }

  /** A last flag lacking its value takes the first positional token as its value. */
  lemma HungryFlagTakesFirstPositional(fs: FlagSet, bools: set<string>, args: seq<string>)
    requires Consistent(fs, bools)
    requires Walked(fs, args).stop.AtHungry? && Walked(fs, args).positional != []
    ensures var w := Walked(fs, args);
            var p := GoParse(fs, Reordered(bools, args));
            && p != ParseAnywhere(fs, args)
            && p == if Accepts(fs, w.stop.flag.kind, w.positional[0])
                    then Done(w.bound + [Assignment(w.stop.flag.target, w.positional[0])], w.positional[1..])
                    else Failed(w.bound, Invalid(w.stop.name, w.positional[0]))
  {
    ParseOfReordered(fs, bools, args);
    PositionalsOfWalk(fs, bools, args);
  }

  /** The tokens whose syntax is refused: three dashes, or no name before "=". */
  lemma BadSyntaxExactly(fs: FlagSet, s: string)
    requires FlagLike(s)
    ensures ReadFlag(fs, s) == Wrong(BadSyntax(s)) <==> "---" <= s || "-=" <= s || "--=" <= s
    ensures ReadFlag(fs, s) == Terminator <==> s == "--"
  {
    hide CutFrom, Accepts;
  }
}
