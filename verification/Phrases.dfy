/** Command lines as their author writes them: settings and positional tokens
    in any order and spelling, and what the program makes of them. */
module Phrases {
  import opened Wrappers
  import opened Arguments
  import opened FlagParsing

  /** How a flag is written: alone, joined to its value by "=", or followed by it. */
  datatype Spelling = Alone | Joined | Apart

  datatype Phrase =
    | Setting(dashes: string, name: string, spelling: Spelling, value: string)
    | Argument(text: string)

  function Spelled(p: Phrase): seq<string> {
    match p
    case Argument(text) => [text]
    case Setting(dashes, name, Alone, _) => [dashes + name]
    case Setting(dashes, name, Joined, value) => [dashes + (name + "=" + value)]
    case Setting(dashes, name, Apart, value) => [dashes + name, value]
  }

  /** A registered flag with a value it accepts, one dash or two, or a token that is no flag. */
  predicate WellSpelled(fs: FlagSet, p: Phrase) {
    match p
    case Argument(text) => !FlagLike(text)
    case Setting(dashes, name, spelling, value) =>
      && (dashes == "-" || dashes == "--")
      && name != "" && name[0] != '-' && '=' !in name
      && var flag := fs.find(name);
         && flag.Some?
         && Accepts(fs, flag.value.kind, value)
         && (spelling.Alone? ==> flag.value.kind.Switch? && value == "true")
         && (spelling.Apart? ==> !flag.value.kind.Switch?)
  }

  function Line(phrases: seq<Phrase>): seq<string> {
    if phrases == [] then [] else Spelled(phrases[0]) + Line(phrases[1..])
  }

  function Settings(fs: FlagSet, phrases: seq<Phrase>): seq<Assignment>
    requires forall k :: 0 <= k < |phrases| ==> WellSpelled(fs, phrases[k])
  {
    if phrases == [] then []
    else
      var rest := Settings(fs, phrases[1..]);
      if phrases[0].Argument? then rest
      else
        assert WellSpelled(fs, phrases[0]);
        [Assignment(fs.find(phrases[0].name).value.target, phrases[0].value)] + rest
  }

  function Texts(phrases: seq<Phrase>): seq<string> {
    if phrases == [] then []
    else if phrases[0].Argument? then [phrases[0].text] + Texts(phrases[1..])
    else Texts(phrases[1..])
  }

  lemma CutJoined(name: string, value: string)
    requires name != "" && '=' !in name
    ensures CutFrom(name + "=" + value, 1) == (name, Some(value))
  {
    var whole := name + "=" + value;
    assert whole[|name|] == '=' && whole[1..][|name| - 1] == '=';
    var (key, v) := CutFrom(whole, 1);
    assert whole[|key|] == '=';
    assert forall k :: 1 <= k < |key| ==> key[k] == key[1..][k - 1] == whole[k];
    assert |key| == |name|;
    assert key == whole[..|key|] == name && v.value == whole[|key| + 1..] == value;
  }

  lemma ReadSpelled(fs: FlagSet, dashes: string, name: string, value: string)
    requires dashes == "-" || dashes == "--"
    requires name != "" && name[0] != '-' && '=' !in name && fs.find(name).Some?
    ensures FlagLike(dashes + name) && FlagLike(dashes + (name + "=" + value))
    ensures var flag := fs.find(name).value;
            && ReadFlag(fs, dashes + name) ==
               (if flag.kind.Switch? then Stored(fs, name, flag, "true") else Wants(name, flag))
            && ReadFlag(fs, dashes + (name + "=" + value)) == Stored(fs, name, flag, value)
  {
    hide CutFrom, Accepts, Stored;
    forall rest | rest != "" && rest[0] != '-' ensures FlagLike(dashes + rest)
      && (dashes + rest)[if (dashes + rest)[1] == '-' then 2 else 1..] == rest { }
    CutFirst(name);
    CutJoined(name, value);
    assert (name + "=" + value)[0] == name[0];
  }

  lemma NextSpelled(fs: FlagSet, p: Phrase, rest: seq<string>)
    requires p.Setting? && WellSpelled(fs, p)
    ensures var line := Spelled(p) + rest;
            && FlagLike(line[0])
            && NextFlag(fs, line) == Takes(Assignment(fs.find(p.name).value.target, p.value), |Spelled(p)|)
  {
    hide ReadFlag, Accepts;
    ReadSpelled(fs, p.dashes, p.name, p.value);
  }

  lemma WalkOfPhrase(fs: FlagSet, p: Phrase, rest: seq<string>)
    requires WellSpelled(fs, p)
    ensures var w := Walked(fs, rest);
            Walked(fs, Spelled(p) + rest) ==
            if p.Argument? then w.(positional := [p.text] + w.positional)
            else w.(bound := [Assignment(fs.find(p.name).value.target, p.value)] + w.bound)
  {
    hide NextFlag, Accepts;
    assert (Spelled(p) + rest)[|Spelled(p)|..] == rest;
    if p.Setting? { NextSpelled(fs, p, rest); }
  }

  /** A direct reading takes the phrases one by one and then what follows them. */
  lemma {:induction false} WalkOfLine(fs: FlagSet, phrases: seq<Phrase>, tail: seq<string>)
    requires forall k :: 0 <= k < |phrases| ==> WellSpelled(fs, phrases[k])
    ensures var w := Walked(fs, tail);
            Walked(fs, Line(phrases) + tail) ==
            Walk(Settings(fs, phrases) + w.bound, Texts(phrases) + w.positional, w.stop)
  {
    hide Walked, WellSpelled, Spelled;
    if phrases == [] {
      assert Line(phrases) + tail == tail && Settings(fs, phrases) == [] && Texts(phrases) == [];
    } else {
      var p, rest := phrases[0], Line(phrases[1..]) + tail;
      WalkOfLine(fs, phrases[1..], tail);
      WalkOfPhrase(fs, p, rest);
      assert Line(phrases) + tail == Spelled(p) + rest;
    }
  }

  lemma WalkOfNothing(fs: FlagSet)
    ensures Walked(fs, []) == Walk([], [], AtEnd)
  {
  }

  /** Flags parse anywhere: however registered flags with acceptable values and
      positional tokens are interleaved, and in whichever spelling, the parse of
      the reordered line is those settings in order and those tokens in order. */
  lemma SettingsParseAnywhere(fs: FlagSet, bools: set<string>, phrases: seq<Phrase>)
    requires Consistent(fs, bools)
    requires forall k :: 0 <= k < |phrases| ==> WellSpelled(fs, phrases[k])
    ensures GoParse(fs, Reordered(bools, Line(phrases))) == Done(Settings(fs, phrases), Texts(phrases))
  {
    hide Consistent, WellSpelled, GoParse, Reordered, Walked;
    WalkOfLine(fs, phrases, []);
    WalkOfNothing(fs);
    assert Line(phrases) + [] == Line(phrases);
    ParsesAnywhere(fs, bools, Line(phrases));
  }
}
