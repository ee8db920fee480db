/** Loading an optional .env file into the process environment
    (cmd/tg-notify/dotenv.go) and resolving settings against it. */
module DotEnv {
  import opened Wrappers
  import opened Text

  type Env = map<string, string>

  /** The binding a line writes, if it writes one. */
  function Binding(line: string): Option<(string, string)> {
    var text := TrimSpace(line);
    if text == "" || HasPrefix(text, "#") then None
    else
      match Cut(text, '=')
      case None => None
      case Some((key, value)) =>
        if TrimSpace(key) == "" then None else Some((TrimSpace(key), TrimSpace(value)))
  }

  lemma EqualsIsNotSpace()
    ensures !IsSpace('=')
  {
  }

  /** The lines that bind `key` to `value`: the key, "=" and the value, each
      surrounded by any white space, where the key is not empty, holds no "="
      and does not start a comment. */
  ghost predicate Binds(line: string, key: string, value: string) {
    && key != "" && Trimmed(key) && '=' !in key && key[0] != '#' && Trimmed(value)
    && exists a, b, c, d ::
         AllSpace(a) && AllSpace(b) && AllSpace(c) && AllSpace(d) && line == Spaced(a, key, b, c, value, d)
  }

  function Spaced(a: string, key: string, b: string, c: string, value: string, d: string): string {
    a + key + b + "=" + c + value + d
  }

  lemma BindingOfSpaced(a: string, key: string, b: string, c: string, value: string, d: string)
    requires key != "" && Trimmed(key) && '=' !in key && key[0] != '#' && Trimmed(value)
    requires AllSpace(a) && AllSpace(b) && AllSpace(c) && AllSpace(d)
    ensures Binding(Spaced(a, key, b, c, value, d)) == Some((key, value))
  {
    hide TrimSpace, IsSpace;
    EqualsIsNotSpace();
    var core, tail := key + b + "=" + c + value, d;
    var text, after := core, c + value;
    if value == "" {
      text, tail, after := key + b + "=", c + d, "";
      assert core + d == text + tail;
    }
    assert Spaced(a, key, b, c, value, d) == a + text + tail;
    assert text[0] == key[0];
    assert text[|text| - 1] == if value == "" then '=' else value[|value| - 1];
    TrimSpaceInside(a, text, tail);
    assert '=' !in key + b by { assert forall k :: 0 <= k < |b| ==> IsSpace(b[k]); }
    assert text == (key + b) + ['='] + after;
    CutAtFirst(key + b, '=', after);
    assert key + b == "" + key + b && after == (if value == "" then "" else c) + value + "";
    TrimSpaceInside("", key, b);
    TrimSpaceInside(if value == "" then "" else c, value, "");
  }

  /** A line binds a key to a value exactly when it is written so. */
  lemma BindingExactly(line: string, key: string, value: string)
    ensures Binding(line) == Some((key, value)) <==> Binds(line, key, value)
  {
    hide TrimSpace, IsSpace, Spaced;
    if Binds(line, key, value) {
      var a, b, c, d :|
        AllSpace(a) && AllSpace(b) && AllSpace(c) && AllSpace(d) && line == Spaced(a, key, b, c, value, d);
      BindingOfSpaced(a, key, b, c, value, d);
    }
    if Binding(line) == Some((key, value)) {
      BoundAsWritten(line, key, value);
    }
  }

  lemma BoundAsWritten(line: string, key: string, value: string)
    requires Binding(line) == Some((key, value))
    ensures Binds(line, key, value)
  {
    hide TrimSpace, IsSpace, Spaced, Trimmed, AllSpace;
    var a, d := TrimSpaceIs(line);
    var text := TrimSpace(line);
    var (before, after) := Cut(text, '=').value;
    var a', b := TrimSpaceIs(before);
    var c, d' := TrimSpaceIs(after);
    KeyLeads(text, before, a', key, b);
    SpacedParts(line, a, before, after, d, a', key, b, c, value, d');
    SpacesJoin(d', d);
  }

  lemma KeyLeads(text: string, before: string, a: string, key: string, b: string)
    requires Trimmed(text) && before + "=" <= text && before == a + key + b && AllSpace(a) && key != ""
    ensures a == "" && '=' !in before ==> '=' !in key
    ensures a == "" && key[0] == text[0]
  {
  }

  lemma SpacesJoin(a: string, b: string)
    requires AllSpace(a) && AllSpace(b)
    ensures AllSpace(a + b)
  {
  }

  lemma SpacedParts(line: string, a: string, before: string, after: string, d: string,
                    a': string, key: string, b: string, c: string, value: string, d': string)
    requires line == a + (before + "=" + after) + d && a' == ""
    requires before == a' + key + b && after == c + value + d'
    ensures line == Spaced(a, key, b, c, value, d' + d)
  {
  }

  /** os.Setenv refuses NUL characters; the program ignores the error. */
  predicate Settable(b: (string, string)) {
    '\0' !in b.0 && '\0' !in b.1
  }

  /** The value that the first settable binding of `key` gives it. */
  function FirstBinding(lines: seq<string>, key: string): Option<string> {
    if lines == [] then None
    else
      var b := Binding(lines[0]);
      if b.Some? && b.value.0 == key && Settable(b.value) then Some(b.value.1)
      else FirstBinding(lines[1..], key)
  }

  /** The environment after loading: every variable set before keeps its value,
      every other one has its first binding in the file, and nothing else is set. */
  ghost predicate Loaded(before: Env, lines: seq<string>, after: Env) {
    forall key ::
      && (key in before ==> key in after && after[key] == before[key])
      && (key !in before ==>
            (key in after <==> FirstBinding(lines, key).Some?)
            && (key in after ==> after[key] == FirstBinding(lines, key).value))
  }

  class Environment {
    var vars: Env

    constructor (vars: Env)
      ensures this.vars == vars
    {
      this.vars := vars;
    }

    method LookupEnv(key: string) returns (value: string, exists_: bool)
      ensures exists_ <==> key in vars
      ensures value == if key in vars then vars[key] else ""
    {
      exists_ := key in vars;
      value := if exists_ then vars[key] else "";
    }

    method Setenv(key: string, value: string) returns (ok: bool)
      modifies this
      ensures ok <==> Settable((key, value))
      ensures vars == if ok then old(vars)[key := value] else old(vars)
    {
      ok := Settable((key, value));
      if ok {
        vars := vars[key := value];
      }
    }
  }

  lemma FirstBindingJoin(lines: seq<string>, line: string, key: string)
    ensures FirstBinding(lines + [line], key) ==
            if FirstBinding(lines, key).Some? then FirstBinding(lines, key) else FirstBinding([line], key)
  {
    if lines == [] {
      assert lines + [line] == [line];
    } else {
      assert (lines + [line])[1..] == lines[1..] + [line];
      FirstBindingJoin(lines[1..], line, key);
    }
  }

  lemma LoadedStep(before: Env, lines: seq<string>, line: string, env: Env, after: Env)
    requires Loaded(before, lines, env)
    requires var b := Binding(line);
             after == if b.Some? && b.value.0 !in env && Settable(b.value) then env[b.value.0 := b.value.1] else env
    ensures Loaded(before, lines + [line], after)
  {
    hide Binding, Settable;
    forall key
      ensures FirstBinding(lines + [line], key) ==
              if FirstBinding(lines, key).Some? then FirstBinding(lines, key) else FirstBinding([line], key)
    {
      FirstBindingJoin(lines, line, key);
    }
    assert forall key :: FirstBinding([line], key) ==
                         var b := Binding(line);
                         if b.Some? && b.value.0 == key && Settable(b.value) then Some(b.value.1) else None;
  }

  /** loadDotEnv on the lines of the file. */
  method LoadDotEnv(lines: seq<string>, env: Environment)
    modifies env
    ensures Loaded(old(env.vars), lines, env.vars)
  {
    hide TrimSpace, Cut, Settable, Loaded;
    ghost var before := env.vars;
    NothingLoaded(before);
    var i := 0;
    while i < |lines|
      invariant 0 <= i <= |lines|
      invariant Loaded(before, lines[..i], env.vars)
    {
      ghost var done, was := lines[..i], env.vars;
      assert lines[..i + 1] == done + [lines[i]];
      var line := TrimSpace(lines[i]);
      var cut := Cut(line, '=');
      if line != "" && !HasPrefix(line, "#") && cut.Some? {
        var key, value := TrimSpace(cut.value.0), TrimSpace(cut.value.1);
        if key != "" {
          var _, exists_ := env.LookupEnv(key);
          if !exists_ {
            var _ := env.Setenv(key, value);
          }
        }
      }
      LoadedStep(before, done, lines[i], was, env.vars);
      i := i + 1;
    }
    assert lines[..i] == lines;
  }

  lemma NothingLoaded(before: Env)
    ensures Loaded(before, [], before)
  {
  }

  /** The environment after loading is determined by what was set before and by the file. */
  lemma LoadedUnique(before: Env, lines: seq<string>, a: Env, b: Env)
    requires Loaded(before, lines, a) && Loaded(before, lines, b)
    ensures a == b
  {
  }

  // ----- Precedence -----

  function Getenv(env: Env, key: string): string {
    if key in env then env[key] else ""
  }

  /** resolveToken, resolveChatID, resolveBaseURL and resolveProxy. */
  function Resolve(flagValue: string, env: Env, key: string): string {
    if flagValue != "" then flagValue else Getenv(env, key)
  }

  /** A nonempty flag wins over a set variable, empty or not, which wins over the first binding in the file. */
  lemma Precedence(flagValue: string, before: Env, lines: seq<string>, after: Env, key: string)
    requires Loaded(before, lines, after)
    ensures Resolve(flagValue, after, key) ==
            if flagValue != "" then flagValue
            else if key in before then before[key]
            else if FirstBinding(lines, key).Some? then FirstBinding(lines, key).value
            else ""
  {
  }

  // ----- Round trip -----

  function Print(key: string, value: string): string {
    key + "=" + value
  }

  /** The keys and values that a KEY=VALUE line can carry. */
  predicate Printable(key: string, value: string) {
    && key != "" && Trimmed(key) && '=' !in key && key[0] != '#'
    && Trimmed(value) && Settable((key, value))
  }

  predicate BlankOrComment(line: string) {
    TrimSpace(line) == "" || HasPrefix(TrimSpace(line), "#")
  }

  lemma BindingOfPrinted(key: string, value: string)
    requires Printable(key, value)
    ensures Binding(Print(key, value)) == Some((key, value))
  {
    hide Binding;
    BindingOfSpaced("", key, "", "", value, "");
    assert Spaced("", key, "", "", value, "") == Print(key, value);
  }

  /** Spaces and tabs. */
  predicate IsPad(s: string) {
    forall k :: 0 <= k < |s| ==> s[k] == ' ' || s[k] == '\t'
  }

  predicate IsPlainKey(s: string) {
    s != "" && forall k :: 0 <= k < |s| ==> 'A' <= s[k] <= 'Z' || s[k] == '_'
  }

  /** Printable ASCII or NUL, without spaces; "=" and "#" included, and possibly empty. */
  predicate IsPlainValue(s: string) {
    forall k :: 0 <= k < |s| ==> '!' <= s[k] <= '~' || s[k] == '\0'
  }

  /** A plain line sets its key to its value, an empty value included, with spaces
      and tabs anywhere around both, unless the value holds a NUL. */
  lemma PlainLine(a: string, key: string, b: string, c: string, value: string, d: string, after: Env)
    requires IsPad(a) && IsPad(b) && IsPad(c) && IsPad(d) && IsPlainKey(key) && IsPlainValue(value)
    requires Loaded(map[], [a + key + b + "=" + c + value + d], after)
    ensures after == if '\0' in value then map[] else map[key := value]
  {
    PadsAreSpace(a);
    PadsAreSpace(b);
    PadsAreSpace(c);
    PadsAreSpace(d);
    PlainIsTrimmed(key, value);
    hide IsPad, IsPlainKey, IsPlainValue, Trimmed, AllSpace, Binding;
    BindingOfSpaced(a, key, b, c, value, d);
    var line := a + key + b + "=" + c + value + d;
    assert line == Spaced(a, key, b, c, value, d);
    OneLine(line, key, value);
    assert forall k :: k in after <==> FirstBinding([line], k).Some?;
    assert after.Keys == if '\0' in value then {} else {key};
  }

  /** Of two lines with the same key the first one counts, and neither counts for a key set before. */
  lemma FirstLineWins(key: string, value: string, other: string, earlier: string, after: Env, kept: Env)
    requires IsPlainKey(key) && IsPlainValue(value) && IsPlainValue(other) && '\0' !in value
    requires Loaded(map[], [key + "=" + value, key + "=" + other], after)
    requires Loaded(map[key := earlier], [key + "=" + value, key + "=" + other], kept)
    ensures after == map[key := value] && kept == map[key := earlier]
  {
    PlainIsTrimmed(key, value);
    PlainIsTrimmed(key, other);
    hide IsPlainKey, IsPlainValue, Trimmed, Binding;
    var lines := [key + "=" + value, key + "=" + other];
    PlainBinding(key, value);
    PlainBinding(key, other);
    TwoBindings(lines, key);
    assert after.Keys == {key} && kept.Keys == {key};
  }

  lemma PlainBinding(key: string, value: string)
    requires key != "" && Trimmed(key) && '=' !in key && key[0] != '#' && Trimmed(value)
    ensures Binding(key + "=" + value) == Some((key, value))
  {
    hide Binding;
    BindingOfSpaced("", key, "", "", value, "");
    assert Spaced("", key, "", "", value, "") == key + "=" + value;
  }

  lemma TwoBindings(lines: seq<string>, key: string)
    requires |lines| == 2 && Binding(lines[0]).Some? && Binding(lines[1]).Some?
    requires Binding(lines[0]).value.0 == key && Binding(lines[1]).value.0 == key
    requires '\0' !in key && '\0' !in Binding(lines[0]).value.1
    ensures forall k :: FirstBinding(lines, k) == if k == key then Some(Binding(lines[0]).value.1) else None
  {
    hide Binding;
    var rest := lines[1..];
    assert rest[0] == lines[1] && rest[1..] == [];
    assert FirstBinding([], key) == None;
    assert forall k :: FirstBinding(lines, k) == if k == key then Some(Binding(lines[0]).value.1)
                                                 else FirstBinding(rest, k);
    assert forall k :: k != key ==> FirstBinding(rest, k) == FirstBinding(rest[1..], k) == None;
  }

  lemma PadsAreSpace(s: string)
    requires IsPad(s)
    ensures AllSpace(s)
  {
  }

  lemma PlainIsTrimmed(key: string, value: string)
    requires IsPlainKey(key) && IsPlainValue(value)
    ensures Trimmed(key) && '=' !in key && key[0] != '#' && '\0' !in key && Trimmed(value)
  {
  }

  lemma OneLine(line: string, key: string, value: string)
    requires Binding(line) == Some((key, value)) && '\0' !in key
    ensures forall k :: FirstBinding([line], k) == if k == key && '\0' !in value then Some(value) else None
  {
    hide Binding;
    assert FirstBinding([], key) == None && [line][1..] == [];
  }

  /** A file that prints a map: each line is blank, a comment, or a binding of
      the map, and every binding has a line. Order and repetition are free. */
  ghost predicate Prints(lines: seq<string>, m: Env) {
    && (forall key :: key in m ==> Printable(key, m[key]) && Print(key, m[key]) in lines)
    && forall i :: 0 <= i < |lines| ==>
         BlankOrComment(lines[i]) || exists key :: key in m && lines[i] == Print(key, m[key])
  }

  lemma {:induction false} FirstBindingOfPrinted(lines: seq<string>, m: Env, key: string)
    requires forall k :: k in m ==> Printable(k, m[k])
    requires forall i :: 0 <= i < |lines| ==>
               BlankOrComment(lines[i]) || exists k :: k in m && lines[i] == Print(k, m[k])
    ensures FirstBinding(lines, key).Some? ==> key in m && FirstBinding(lines, key).value == m[key]
    ensures key in m && Print(key, m[key]) in lines ==> FirstBinding(lines, key).Some?
  {
    hide TrimSpace, Print, Cut;
    if lines == [] {
    } else {
      FirstBindingOfPrinted(lines[1..], m, key);
      assert lines == [lines[0]] + lines[1..];
      if BlankOrComment(lines[0]) {
        assert Binding(lines[0]) == None;
        if key in m { BindingOfPrinted(key, m[key]); }
      } else {
        var k :| k in m && lines[0] == Print(k, m[k]);
        BindingOfPrinted(k, m[k]);
        if key in m { BindingOfPrinted(key, m[key]); }
      }
    }
  }

  /** Loading a file that prints a map into an empty environment gives the map back. */
  lemma RoundTrip(lines: seq<string>, m: Env, after: Env)
    requires Prints(lines, m) && Loaded(map[], lines, after)
    ensures after == m
  {
    hide Print, BlankOrComment, Printable;
    forall key ensures FirstBinding(lines, key) == if key in m then Some(m[key]) else None {
      FirstBindingOfPrinted(lines, m, key);
    }
    assert forall key :: key in after <==> key in m;
    assert after.Keys == m.Keys;
  }
}
