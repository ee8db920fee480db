/** The command-line rewriting of cmd/tg-notify/main.go: flag tokens, each with
    the value it takes, are moved ahead of positional tokens. */
module Arguments {

  /** A token that the rewriting and Go's flag package both treat as a flag. */
  predicate FlagLike(arg: string) {
    |arg| >= 2 && arg[0] == '-'
  }

  /** strings.TrimLeft(arg, "-") */
  function TrimDashes(arg: string): string {
    if arg != "" && arg[0] == '-' then TrimDashes(arg[1..]) else arg
  }

  /** A flag token written without "=" and not listed as boolean takes the next token. */
  predicate TakesNext(bools: set<string>, arg: string) {
    var name := TrimDashes(arg);
    '=' !in name && name !in bools
  }

  /** How many tokens a leading flag moves: itself and, if it takes one and there is one, its value. */
  function Span(bools: set<string>, args: seq<string>): (n: nat)
    requires args != []
    ensures 1 <= n <= |args| && n <= 2
  {
    if TakesNext(bools, args[0]) && |args| > 1 then 2 else 1
  }

  function FlagBlock(bools: set<string>, args: seq<string>): seq<string> {
    if args == [] then []
    else if !FlagLike(args[0]) then FlagBlock(bools, args[1..])
    else var n := Span(bools, args); args[..n] + FlagBlock(bools, args[n..])
  }

  function PositionalBlock(bools: set<string>, args: seq<string>): seq<string> {
    if args == [] then []
    else if !FlagLike(args[0]) then [args[0]] + PositionalBlock(bools, args[1..])
    else PositionalBlock(bools, args[Span(bools, args)..])
  }

  function Reordered(bools: set<string>, args: seq<string>): seq<string> {
    FlagBlock(bools, args) + PositionalBlock(bools, args)
  }

  lemma FlagBlockStep(bools: set<string>, args: seq<string>)
    requires args != []
    ensures !FlagLike(args[0]) ==> FlagBlock(bools, args) == FlagBlock(bools, args[1..])
    ensures var n := Span(bools, args);
            FlagLike(args[0]) ==> FlagBlock(bools, args) == args[..n] + FlagBlock(bools, args[n..])
  {
  }

  method ReorderArgs(bools: set<string>, args: seq<string>) returns (r: seq<string>)
    ensures r == Reordered(bools, args)
  {
    var flags, positional := [], [];
    var i := 0;
    while i < |args|
      invariant 0 <= i <= |args|
      invariant flags + FlagBlock(bools, args[i..]) == FlagBlock(bools, args)
      invariant positional + PositionalBlock(bools, args[i..]) == PositionalBlock(bools, args)
    {
      var arg := args[i];
      ghost var rest := args[i..];
      assert rest[1..] == args[i + 1..];
      if !FlagLike(arg) {
        positional := positional + [arg];
        i := i + 1;
        continue;
      }
      flags := flags + [arg];
      if TakesNext(bools, arg) && i + 1 < |args| {
        assert rest[..2] == [arg, args[i + 1]] && rest[2..] == args[i + 2..];
        i := i + 1;
        flags := flags + [args[i]];
      }
      i := i + 1;
    }
    r := flags + positional;
  }

  // ----- The rewriting as a stable partition by role -----

  datatype Role = Key | Value | Positional

  /** The role of a token, read off its left neighbours only. */
  function RoleAt(bools: set<string>, args: seq<string>, i: nat): Role
    requires i < |args|
  {
    if i > 0 && RoleAt(bools, args, i - 1) == Key && TakesNext(bools, args[i - 1]) then Value
    else if FlagLike(args[i]) then Key
    else Positional
  }

  /** The tokens from index `i` on whose role is (or is not) Positional, in command-line order. */
  function Tokens(bools: set<string>, args: seq<string>, positional: bool, i: nat): seq<string>
    requires i <= |args|
    decreases |args| - i
  {
    if i == |args| then []
    else if (RoleAt(bools, args, i) == Positional) == positional
    then [args[i]] + Tokens(bools, args, positional, i + 1)
    else Tokens(bools, args, positional, i + 1)
  }

  lemma {:induction false} BlocksAreRoles(bools: set<string>, args: seq<string>, i: nat)
    requires i <= |args|
    requires i < |args| ==> RoleAt(bools, args, i) != Value
    ensures FlagBlock(bools, args[i..]) == Tokens(bools, args, false, i)
    ensures PositionalBlock(bools, args[i..]) == Tokens(bools, args, true, i)
    decreases |args| - i
  {
    if i == |args| {
    } else {
      var rest := args[i..];
      assert rest[1..] == args[i + 1..];
      if FlagLike(args[i]) && TakesNext(bools, args[i]) && i + 1 < |args| {
        assert rest[..2] == [args[i]] + [args[i + 1]] && rest[2..] == args[i + 2..];
        assert RoleAt(bools, args, i + 1) == Value;
        BlocksAreRoles(bools, args, i + 2);
      } else {
        BlocksAreRoles(bools, args, i + 1);
      }
    }
  }

  /** On every command line the rewriting is the stable partition by role: the
      flags with their values in order, then the positional tokens in order. A
      token that is not a flag joins the flags only right after a flag that takes a value. */
  lemma StablePartition(bools: set<string>, args: seq<string>)
    ensures Reordered(bools, args) == Tokens(bools, args, false, 0) + Tokens(bools, args, true, 0)
    ensures forall i :: 0 <= i < |args| && !FlagLike(args[i]) && RoleAt(bools, args, i) != Positional ==>
              i > 0 && RoleAt(bools, args, i - 1) == Key && TakesNext(bools, args[i - 1])
  {
    assert args[0..] == args;
    BlocksAreRoles(bools, args, 0);
  }

  lemma {:induction false} Permutation(bools: set<string>, args: seq<string>)
    ensures multiset(Reordered(bools, args)) == multiset(args)
    decreases |args|
  {
    if args == [] {
    } else {
      assert args == [args[0]] + args[1..];
      if FlagLike(args[0]) && TakesNext(bools, args[0]) && |args| > 1 {
        assert args == args[..2] + args[2..];
        Permutation(bools, args[2..]);
      } else {
        Permutation(bools, args[1..]);
      }
    }
  }

  ghost predicate NoFlags(args: seq<string>) {
    forall k :: 0 <= k < |args| ==> !FlagLike(args[k])
  }

  lemma {:induction false} PositionalsAreNotFlags(bools: set<string>, args: seq<string>)
    ensures NoFlags(PositionalBlock(bools, args))
    decreases |args|
  {
    if args == [] {
    } else {
      PositionalsAreNotFlags(bools, args[1..]);
      if |args| > 1 { PositionalsAreNotFlags(bools, args[2..]); }
    }
  }

  lemma {:induction false} NoFlagsUnchanged(bools: set<string>, args: seq<string>)
    requires NoFlags(args)
    ensures FlagBlock(bools, args) == [] && PositionalBlock(bools, args) == args
  {
    if args == [] {
    } else {
      assert !FlagLike(args[0]);
      assert NoFlags(args[1..]);
      NoFlagsUnchanged(bools, args[1..]);
    }
  }

  /** A leading flag and what it takes can be reordered separately from the rest of the line. */
  lemma ReorderedStep(bools: set<string>, args: seq<string>, n: nat)
    requires args != [] && FlagLike(args[0]) && n == Span(bools, args)
    ensures Reordered(bools, args) == args[..n] + Reordered(bools, args[n..])
  {
  }

  lemma {:induction false} FlagBlockLeads(bools: set<string>, args: seq<string>, tail: seq<string>)
    requires NoFlags(tail)
    ensures Reordered(bools, FlagBlock(bools, args) + tail) == FlagBlock(bools, args) + tail
    decreases |args|
  {
    hide TakesNext;
    if args == [] {
      NoFlagsUnchanged(bools, tail);
      assert [] + tail == tail;
    } else if !FlagLike(args[0]) {
      FlagBlockLeads(bools, args[1..], tail);
    } else {
      var n := Span(bools, args);
      FlagBlockLeads(bools, args[n..], tail);
      LeadingFlag(bools, args[..n], FlagBlock(bools, args[n..]), tail);
      assert args[..n] + (FlagBlock(bools, args[n..]) + tail) == FlagBlock(bools, args) + tail;
      if TakesNext(bools, args[0]) && n == 1 { assert args[n..] == []; }
    }
  }

  lemma LeadingFlag(bools: set<string>, head: seq<string>, block: seq<string>, tail: seq<string>)
    requires 1 <= |head| <= 2 && FlagLike(head[0]) && NoFlags(tail)
    requires TakesNext(bools, head[0]) ==> |head| == 2 || block == []
    requires !TakesNext(bools, head[0]) ==> |head| == 1
    requires Reordered(bools, block + tail) == block + tail
    ensures Reordered(bools, head + (block + tail)) == head + (block + tail)
  {
    hide TakesNext;
    var line := head + (block + tail);
    var n := Span(bools, line);
    ReorderedStep(bools, line, n);
    if n == |head| {
      assert line[..n] == head && line[n..] == block + tail;
    } else {
      assert line[n..] == tail[1..] && NoFlags(tail[1..]);
      NoFlagsUnchanged(bools, tail[1..]);
      assert line[..n] + tail[1..] == line;
    }
  }

  /** A second rewriting changes nothing, a valueless last flag included. */
  lemma Idempotent(bools: set<string>, args: seq<string>)
    ensures Reordered(bools, Reordered(bools, args)) == Reordered(bools, args)
  {
    PositionalsAreNotFlags(bools, args);
    FlagBlockLeads(bools, args, PositionalBlock(bools, args));
  }

  // ----- Lines the rewriting leaves alone -----

  predicate FlagsFirst(bools: set<string>, args: seq<string>) {
    if args == [] then true
    else if !FlagLike(args[0]) then forall k :: 0 <= k < |args| ==> !FlagLike(args[k])
    else FlagsFirst(bools, args[Span(bools, args)..])
  }

  lemma {:induction false} FlagBlockStartsWithFlag(bools: set<string>, args: seq<string>)
    ensures FlagBlock(bools, args) != [] ==> FlagLike(FlagBlock(bools, args)[0])
    ensures FlagBlock(bools, args) == [] <==> NoFlags(args)
    decreases |args|
  {
    if args == [] || FlagLike(args[0]) {
    } else {
      FlagBlockStartsWithFlag(bools, args[1..]);
      assert NoFlags(args[1..]) ==> NoFlags(args) by {
        if NoFlags(args[1..]) {
          forall k | 0 <= k < |args| ensures !FlagLike(args[k]) {
            if k > 0 { assert args[k] == args[1..][k - 1]; }
          }
        }
      }
    }
  }

  lemma {:induction false} FlagsFirstExactly(bools: set<string>, args: seq<string>)
    ensures FlagsFirst(bools, args) <==> Reordered(bools, args) == args
    decreases |args|
  {
    if args == [] {
    } else if !FlagLike(args[0]) {
      FlagBlockStartsWithFlag(bools, args);
      if NoFlags(args) {
        NoFlagsUnchanged(bools, args);
      }
    } else {
      var n := Span(bools, args);
      FlagsFirstExactly(bools, args[n..]);
      ReorderedStep(bools, args, n);
      assert args == args[..n] + args[n..];
    }
  }
}
