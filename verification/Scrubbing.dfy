/** The masking of bot tokens in error texts (client.go, cmd/tg-notify/main.go):
    the leftmost, non-overlapping replacement of "/bot", one or more characters
    other than '/' and white space, and "/". */
module Scrubbing {

  const PREFIX := "/bot"
  const PLACEHOLDER := "/bot<token>/"

  /** The class \s of Go's regular expressions. */
  predicate IsRegexSpace(c: char) {
    c == '\t' || c == '\n' || c == '\U{000C}' || c == '\r' || c == ' '
  }

  predicate IsBodyChar(c: char) {
    c != '/' && !IsRegexSpace(c)
  }

  /** The length of the longest run of body characters at the start of `s`. */
  function BodyLength(s: string): (n: nat)
    ensures n <= |s|
    ensures forall k :: 0 <= k < n ==> IsBodyChar(s[k])
    ensures n < |s| ==> !IsBodyChar(s[n])
  {
    if s == "" || !IsBodyChar(s[0]) then 0 else 1 + BodyLength(s[1..])
  }

  ghost predicate IsToken(s: string) {
    s != "" && forall k :: 0 <= k < |s| ==> IsBodyChar(s[k])
  }

  /** The length of the match at the start of `s`, or 0. */
  function MatchLength(s: string): (n: nat)
    ensures n <= |s|
  {
    if PREFIX <= s then
      var n := BodyLength(s[4..]);
      if n > 0 && 4 + n < |s| && s[4 + n] == '/' then 5 + n else 0
    else 0
  }

  /** How far the scan moves: past a match with its closing slash, or one character. */
  function Advance(s: string): (n: nat)
    requires s != ""
    ensures 1 <= n <= |s|
  {
    if MatchLength(s) > 0 then MatchLength(s) else 1
  }

  function Emitted(s: string): string
    requires s != ""
  {
    if MatchLength(s) > 0 then PLACEHOLDER else s[..1]
  }

  /** ReplaceAllString */
  function Scrub(s: string): string {
    if s == "" then "" else Emitted(s) + Scrub(s[Advance(s)..])
  }

  // ----- What a match is -----

  lemma BodyLengthIs(s: string, n: nat)
    requires n <= |s|
    requires forall k :: 0 <= k < n ==> IsBodyChar(s[k])
    requires n < |s| ==> !IsBodyChar(s[n])
    ensures BodyLength(s) == n
  {
  }

  /** A match at the start is exactly "/bot", a nonempty run of body characters, and "/". */
  lemma MatchIsTokenSegment(body: string, rest: string)
    requires IsToken(body)
    ensures MatchLength(PREFIX + body + "/" + rest) == |body| + 5
    ensures (PREFIX + body + "/" + rest)[|body| + 5..] == rest
  {
    var s := PREFIX + body + "/" + rest;
    assert s[4..] == body + ("/" + rest);
    assert s[4..][|body|] == '/';
    BodyLengthIs(s[4..], |body|);
  }

  lemma ScrubSegment(body: string, rest: string)
    requires IsToken(body)
    ensures Scrub(PREFIX + body + "/" + rest) == PLACEHOLDER + Scrub(rest)
  {
    MatchIsTokenSegment(body, rest);
  }

  lemma PlaceholderMatches(rest: string)
    ensures MatchLength(PLACEHOLDER + rest) == 12 && (PLACEHOLDER + rest)[12..] == rest
  {
    assert PLACEHOLDER + rest == PREFIX + "<token>" + "/" + rest;
    MatchIsTokenSegment("<token>", rest);
  }

  lemma PlaceholderScrubs(rest: string)
    ensures Scrub(PLACEHOLDER + rest) == PLACEHOLDER + Scrub(rest)
  {
    PlaceholderMatches(rest);
  }

  // ----- Scrubbing as a leftmost, non-overlapping replacement -----

  /** A text cut into copied characters and masked segments. */
  datatype Piece = Copied(c: char) | Masked(body: string)

  function Source(pieces: seq<Piece>): string {
    if pieces == [] then ""
    else (match pieces[0] case Copied(c) => [c] case Masked(body) => PREFIX + body + "/") + Source(pieces[1..])
  }

  function Output(pieces: seq<Piece>): string {
    if pieces == [] then ""
    else (match pieces[0] case Copied(c) => [c] case Masked(_) => PLACEHOLDER) + Output(pieces[1..])
  }

  /** Masked segments are token segments, and none starts at a copied character. */
  ghost predicate Leftmost(pieces: seq<Piece>) {
    pieces != [] ==>
      && Leftmost(pieces[1..])
      && match pieces[0]
         case Masked(body) => IsToken(body)
         case Copied(_) => forall body :: IsToken(body) ==> !(PREFIX + body + "/" <= Source(pieces))
  }

  lemma MatchHasSegment(s: string)
    requires MatchLength(s) > 0
    ensures var body := s[4..MatchLength(s) - 1];
            IsToken(body) && s[..MatchLength(s)] == PREFIX + body + "/"
  {
  }

  /** Scrubbing is the output of any leftmost cutting of the text. */
  lemma {:induction false} ScrubIsLeftmost(pieces: seq<Piece>)
    requires Leftmost(pieces)
    ensures Scrub(Source(pieces)) == Output(pieces)
  {
    hide MatchLength, IsToken;
    if pieces == [] {
    } else {
      ScrubIsLeftmost(pieces[1..]);
      var s, rest := Source(pieces), Source(pieces[1..]);
      match pieces[0]
      case Masked(body) => ScrubSegment(body, rest);
      case Copied(c) =>
        if MatchLength(s) > 0 {
          MatchHasSegment(s);
          assert false;
        }
        assert s[1..] == rest && s[..1] == [c];
    }
  }

  /** Every text has a leftmost cutting. */
  lemma {:induction false} LeftmostExists(s: string) returns (pieces: seq<Piece>)
    ensures Leftmost(pieces) && Source(pieces) == s
    decreases |s|
  {
    hide MatchLength, IsToken;
    pieces := [];
    if s == "" {
    } else {
      var rest := LeftmostExists(s[Advance(s)..]);
      if MatchLength(s) > 0 {
        MatchHasSegment(s);
        pieces := [Masked(s[4..MatchLength(s) - 1])] + rest;
      } else {
        pieces := [Copied(s[0])] + rest;
        assert Source(pieces) == s;
        forall body | IsToken(body) ensures !(PREFIX + body + "/" <= s) {
          NoSegment(s, body);
        }
      }
      assert pieces[1..] == rest;
      assert s == s[..Advance(s)] + s[Advance(s)..];
    }
  }

  lemma NoSegment(s: string, body: string)
    requires MatchLength(s) == 0 && IsToken(body)
    ensures !(PREFIX + body + "/" <= s)
  {
    var n := |body| + 5;
    if PREFIX + body + "/" <= s {
      assert s == PREFIX + body + "/" + s[n..];
      MatchIsTokenSegment(body, s[n..]);
      assert false;
    }
  }

  // ----- Idempotence -----

  /** Scrubbing keeps a text up to and including its first slash. */
  lemma {:induction false} ScrubKeepsHead(s: string, n: nat)
    requires n <= |s|
    requires forall k :: 0 <= k < n ==> s[k] != '/'
    ensures n <= |Scrub(s)| && Scrub(s)[..n] == s[..n]
    ensures n == |s| ==> Scrub(s) == s
    ensures n < |s| && s[n] == '/' ==> n < |Scrub(s)| && Scrub(s)[n] == '/'
  {
    hide Scrub, MatchLength;
    if s == "" {
      EmptyScrubs();
    } else if n == 0 {
      if s[0] == '/' { SlashStep(s); }
    } else {
      SlashFreeStep(s);
      ScrubKeepsHead(s[1..], n - 1);
      assert s == s[..1] + s[1..];
      assert s[1..][..n - 1] == s[1..n] && s[..n] == s[..1] + s[1..n];
    }
  }

  lemma EmptyScrubs()
    ensures Scrub("") == ""
  {
  }

  lemma SlashStep(s: string)
    requires s != "" && s[0] == '/'
    ensures Scrub(s) != "" && Scrub(s)[0] == '/'
  {
  }

  lemma SlashFreeStep(s: string)
    requires s != "" && s[0] != '/'
    ensures Scrub(s) == s[..1] + Scrub(s[1..])
  {
  }

  function SlashIndex(s: string): (n: nat)
    ensures n <= |s|
    ensures forall k :: 0 <= k < n ==> s[k] != '/'
    ensures n < |s| ==> s[n] == '/'
  {
    if s == "" || s[0] == '/' then 0 else 1 + SlashIndex(s[1..])
  }

  /** A match depends only on the matched text. */
  lemma MatchIsLocal(s: string, t: string)
    requires 0 < MatchLength(t) <= |s| && s[..MatchLength(t)] == t[..MatchLength(t)]
    ensures MatchLength(s) == MatchLength(t)
  {
  }

  /** Scrubbing the text after a character creates no new match at that character. */
  lemma NoNewMatch(s: string)
    requires s != ""
    ensures MatchLength(s[..1] + Scrub(s[1..])) > 0 ==> MatchLength(s) > 0
  {
    hide Scrub, MatchLength;
    var rest := s[1..];
    var t := s[..1] + Scrub(rest);
    var n := SlashIndex(rest);
    ScrubKeepsHead(rest, n);
    var k := MatchLength(t);
    if k > 0 {
      SlashesOfMatch(t);
      assert forall j :: 0 <= j < n ==> Scrub(rest)[..n][j] == rest[..n][j];
      assert forall j :: 1 <= j <= n ==> t[j] == s[j] && t[j] != '/';
      assert n < |rest| ==> t[n + 1] == '/';
      assert k == n + 2;
      assert forall j :: 0 <= j < k ==> s[j] == t[j];
      assert s[..k] == t[..k];
      MatchIsLocal(s, t);
    }
  }

  lemma SlashesOfMatch(t: string)
    requires MatchLength(t) > 0
    ensures MatchLength(t) >= 6 && t[MatchLength(t) - 1] == '/'
    ensures forall j :: 1 <= j < MatchLength(t) - 1 ==> t[j] != '/'
  {
  }

  /** On every text, scrubbing a scrubbed text changes nothing, so the library's
      scrub followed by the command's scrub is a single scrub. */
  lemma {:induction false} ScrubIdempotent(s: string)
    ensures Scrub(Scrub(s)) == Scrub(s)
    decreases |s|
  {
    hide MatchLength;
    if s == "" {
    } else {
      var rest := s[Advance(s)..];
      ScrubIdempotent(rest);
      if MatchLength(s) > 0 {
        PlaceholderScrubs(Scrub(rest));
      } else {
        NoNewMatch(s);
        var t := s[..1] + Scrub(rest);
        assert t[1..] == Scrub(rest) && t[..1] == s[..1];
      }
    }
  }

  // ----- Independence of the token -----

  predicate OpenHere(pre: string) {
    PREFIX <= pre && |pre| > 4 && BodyLength(pre[4..]) == |pre| - 4
  }

  /** The scan of `pre` ends inside a candidate that a following slash would close. */
  predicate LeavesOpen(pre: string) {
    pre != "" && (OpenHere(pre) || LeavesOpen(pre[Advance(pre)..]))
  }

  /** A text none of whose suffixes is "/bot" and a token leaves no candidate open. */
  lemma {:induction false} NoOpenSuffix(pre: string)
    requires forall i :: 0 <= i <= |pre| ==> !OpenHere(pre[i..])
    ensures !LeavesOpen(pre)
    decreases |pre|
  {
    if pre == "" {
    } else {
      var k := Advance(pre);
      forall i | 0 <= i <= |pre[k..]| ensures !OpenHere(pre[k..][i..]) {
        assert pre[k..][i..] == pre[k + i..];
      }
      assert pre[0..] == pre;
      NoOpenSuffix(pre[k..]);
    }
  }

  lemma PrefixBeforeSlash(pre: string, rest: string)
    requires pre != "" && rest != "" && rest[0] == '/'
    ensures PREFIX <= pre + rest <==> PREFIX <= pre
  {
    if |pre| < 4 {
      assert (pre + rest)[|pre|] == '/';
    } else {
      assert (pre + rest)[..4] == pre[..4];
    }
  }

  /** A slash after `pre` completes a match at the start of `pre` only if one is open there. */
  lemma MatchBeforeSlash(pre: string, rest: string)
    requires pre != "" && rest != "" && rest[0] == '/' && !OpenHere(pre)
    ensures MatchLength(pre + rest) == MatchLength(pre)
  {
    PrefixBeforeSlash(pre, rest);
    if PREFIX <= pre {
      assert (pre + rest)[4..] == pre[4..] + rest;
      BodyLengthIs(pre[4..] + rest, BodyLength(pre[4..]));
    }
  }

  lemma StepBeforeSlash(pre: string, rest: string)
    requires pre != "" && rest != "" && rest[0] == '/' && !OpenHere(pre)
    ensures Scrub(pre + rest) == Emitted(pre) + Scrub(pre[Advance(pre)..] + rest)
  {
    hide MatchLength, OpenHere;
    MatchBeforeSlash(pre, rest);
    assert (pre + rest)[..1] == pre[..1];
    assert (pre + rest)[Advance(pre)..] == pre[Advance(pre)..] + rest;
  }

  /** Scrubbing splits before a slash unless a candidate is open there. */
  lemma {:induction false} ScrubSplits(pre: string, rest: string)
    requires !LeavesOpen(pre) && rest != "" && rest[0] == '/'
    ensures Scrub(pre + rest) == Scrub(pre) + Scrub(rest)
    decreases |pre|
  {
    hide MatchLength, Emitted, OpenHere;
    if pre == "" {
      assert pre + rest == rest;
    } else {
      StepBeforeSlash(pre, rest);
      ScrubSplits(pre[Advance(pre)..], rest);
    }
  }

  function TokenText(pre: string, token: string, post: string): string {
    pre + PREFIX + token + "/" + post
  }

  /** The text of a Bot API URL with any token is masked the same way, and its
      surroundings are scrubbed on their own. */
  lemma TokenMasked(pre: string, token: string, post: string)
    requires IsToken(token) && !LeavesOpen(pre)
    ensures Scrub(TokenText(pre, token, post)) == Scrub(pre) + PLACEHOLDER + Scrub(post)
  {
    hide Scrub, LeavesOpen;
    var rest := PREFIX + token + "/" + post;
    assert TokenText(pre, token, post) == pre + rest;
    ScrubSplits(pre, rest);
    ScrubSegment(token, post);
  }

  /** The part of a token before its first slash: all of it that is written in the token segment of a URL. */
  function Segment(token: string): string {
    token[..SlashIndex(token)]
  }

  /** What follows the token segment: the rest of the token, then what follows the token. */
  function Behind(token: string, post: string): string {
    if '/' in token then token[SlashIndex(token) + 1..] + "/" + post else post
  }

  lemma SegmentOfToken(pre: string, token: string, post: string)
    ensures TokenText(pre, token, post) == TokenText(pre, Segment(token), Behind(token, post))
    ensures '/' !in Segment(token)
    ensures '/' !in token ==> Segment(token) == token && Behind(token, post) == post
    ensures IsToken(token) ==> '/' !in token
  {
    var n := SlashIndex(token);
    if n < |token| {
      assert token == token[..n] + "/" + token[n + 1..];
      assert TokenText(pre, token, post) == pre + PREFIX + token[..n] + "/" + (token[n + 1..] + "/" + post);
    }
  }

  /** What is written before the open candidate. */
  function OpenHead(pre: string): string
    requires LeavesOpen(pre)
  {
    if OpenHere(pre) then "" else Emitted(pre) + OpenHead(pre[Advance(pre)..])
  }

  lemma {:induction false} SlashFreeKept(a: string, rest: string)
    requires forall k :: 0 <= k < |a| ==> a[k] != '/'
    ensures Scrub(a + rest) == a + Scrub(rest)
  {
    hide MatchLength, Scrub;
    if a == "" {
      assert a + rest == rest;
    } else {
      var s := a + rest;
      assert s[1..] == a[1..] + rest && s[..1] == a[..1];
      SlashFreeKept(a[1..], rest);
      SlashFreeStep(s);
      assert a == a[..1] + a[1..];
      assert a[..1] + (a[1..] + Scrub(rest)) == a + Scrub(rest);
    }
  }

  /** An open candidate swallows the slash of the token segment, which is then copied. */
  lemma {:induction false} OpenCopiesToken(pre: string, token: string, post: string)
    requires LeavesOpen(pre) && '/' !in token
    ensures Scrub(TokenText(pre, token, post)) ==
            OpenHead(pre) + PLACEHOLDER + "bot" + token + Scrub("/" + post)
    decreases |pre|
  {
    hide Scrub, MatchLength, Emitted;
    var rest := PREFIX + token + "/" + post;
    assert TokenText(pre, token, post) == pre + rest;
    if OpenHere(pre) {
      OpenHereCopies(pre[4..], token, post);
      assert pre == PREFIX + pre[4..];
    } else {
      StepBeforeSlash(pre, rest);
      assert pre[Advance(pre)..] + rest == TokenText(pre[Advance(pre)..], token, post);
      OpenCopiesToken(pre[Advance(pre)..], token, post);
    }
  }

  lemma OpenHereCopies(body: string, token: string, post: string)
    requires IsToken(body) && '/' !in token
    ensures Scrub(TokenText(PREFIX + body, token, post)) == PLACEHOLDER + "bot" + token + Scrub("/" + post)
  {
    hide Scrub;
    var after := "bot" + token + ("/" + post);
    assert TokenText(PREFIX + body, token, post) == PREFIX + body + "/" + after;
    ScrubSegment(body, after);
    SlashFreeKept("bot" + token, "/" + post);
  }

  /** A segment that is empty or holds white space is copied. */
  lemma SegmentCopied(segment: string, post: string)
    requires '/' !in segment && !IsToken(segment)
    ensures Scrub(PREFIX + segment + "/" + post) == PREFIX + segment + Scrub("/" + post)
  {
    hide Scrub;
    var s := PREFIX + segment + "/" + post;
    var copied := "bot" + segment;
    assert s == "/" + (copied + ("/" + post)) && s[1..] == copied + ("/" + post);
    NoSegmentMatch(segment, post);
    NoMatchStep(s);
    SlashFreeKept(copied, "/" + post);
    assert "/" + (copied + Scrub("/" + post)) == PREFIX + segment + Scrub("/" + post);
  }

  lemma NoSegmentMatch(segment: string, post: string)
    requires '/' !in segment && !IsToken(segment)
    ensures MatchLength(PREFIX + segment + "/" + post) == 0
  {
    var s := PREFIX + segment + "/" + post;
    assert s[4..] == segment + ("/" + post);
    assert forall k :: 0 <= k < |segment| ==> s[4..][k] == segment[k];
    assert s[4..][|segment|] == '/';
    assert BodyLength(s[4..]) == |segment| ==> segment == "";
  }

  lemma NoMatchStep(s: string)
    requires s != "" && MatchLength(s) == 0
    ensures Scrub(s) == s[..1] + Scrub(s[1..])
  {
  }

  /** A nonempty text of the class [^/\s], character by character. */
  predicate IsSegment(s: string) {
    s != "" && '/' !in s && '\t' !in s && '\n' !in s && '\U{000C}' !in s && '\r' !in s && ' ' !in s
  }

  /** The pattern /bot[^/\s]+/ spelled out: between "/bot" and the next slash, a
      nonempty text without tab, newline, form feed, carriage return and space
      is masked, and any other is copied. */
  lemma SegmentLiterally(segment: string, post: string)
    requires '/' !in segment
    ensures Scrub("/bot" + segment + "/" + post) ==
            if IsSegment(segment) then "/bot<token>/" + Scrub(post) else "/bot" + segment + Scrub("/" + post)
  {
    hide Scrub;
    assert IsToken(segment) <==> IsSegment(segment) by { TokenLiterally(segment); }
    hide IsToken, IsSegment;
    if IsToken(segment) { ScrubSegment(segment, post); } else { SegmentCopied(segment, post); }
  }

  lemma TokenLiterally(s: string)
    ensures IsToken(s) <==> IsSegment(s)
  {
    if IsSegment(s) {
      forall k | 0 <= k < |s| ensures IsBodyChar(s[k]) {
        assert s[k] in s;
      }
    }
  }

  /** One character is masked exactly when it is none of the six. */
  lemma OneCharacterExactly(c: char)
    ensures Scrub("/bot" + [c] + "/") == "/bot<token>/" <==> c !in "/\t\n\U{000C}\r "
  {
    hide Scrub;
    assert TokenText("", [c], "") == "/bot" + [c] + "/";
    MaskedExactly("", [c], "");
    EmptyScrubs();
    TokenLiterally([c]);
    assert "" + PLACEHOLDER + "" == "/bot<token>/";
  }

  /** What scrubbing makes of a text with any token at all: a proper segment is
      masked, any other is copied, and what follows the segment is scrubbed on
      its own, the rest of a token with a slash included. */
  lemma ScrubTokenText(pre: string, token: string, post: string)
    ensures var segment, behind := Segment(token), Behind(token, post);
            Scrub(TokenText(pre, token, post)) ==
            if LeavesOpen(pre) then OpenHead(pre) + PLACEHOLDER + "bot" + segment + Scrub("/" + behind)
            else Scrub(pre) + if IsToken(segment) then PLACEHOLDER + Scrub(behind)
                              else PREFIX + segment + Scrub("/" + behind)
  {
    hide Scrub, LeavesOpen, IsToken, Segment, Behind, OpenHead;
    var segment, behind := Segment(token), Behind(token, post);
    SegmentOfToken(pre, token, post);
    if LeavesOpen(pre) {
      OpenCopiesToken(pre, segment, behind);
    } else {
      var rest := PREFIX + segment + "/" + behind;
      assert TokenText(pre, segment, behind) == pre + rest;
      ScrubSplits(pre, rest);
      if IsToken(segment) { ScrubSegment(segment, behind); } else { SegmentCopied(segment, behind); }
    }
  }

  function Slashes(s: string): nat {
    multiset(s)['/']
  }

  /** Scrubbing neither adds nor removes a slash. */
  lemma {:induction false} ScrubKeepsSlashes(s: string)
    ensures Slashes(Scrub(s)) == Slashes(s)
    decreases |s|
  {
    hide MatchLength, Emitted;
    if s == "" {
    } else {
      var k := Advance(s);
      ScrubKeepsSlashes(s[k..]);
      EmittedSlashes(s);
      assert s == s[..k] + s[k..];
    }
  }

  lemma EmittedSlashes(s: string)
    requires s != ""
    ensures Slashes(Emitted(s)) == Slashes(s[..Advance(s)])
  {
    hide MatchLength;
    if MatchLength(s) > 0 {
      MatchHasSegment(s);
      var body := s[4..MatchLength(s) - 1];
      SlashesBetween(body);
      SlashesBetween("<token>");
    }
  }

  lemma SlashesBetween(body: string)
    requires IsToken(body)
    ensures Slashes(PREFIX + body + "/") == 2 == Slashes(PREFIX) + Slashes("/")
  {
    assert '/' !in body;
    assert PREFIX == "/" + "bot";
  }

  /** Where no candidate is open, the text is masked as for an ordinary token
      only if the token is one: nonempty, without slash and white space. */
  lemma MaskedExactly(pre: string, token: string, post: string)
    requires !LeavesOpen(pre)
    ensures Scrub(TokenText(pre, token, post)) == Scrub(pre) + PLACEHOLDER + Scrub(post) <==> IsToken(token)
  {
    assert '/' in token <==> Slashes(token) > 0;
    var plain: string :| IsToken(plain) && Slashes(plain) == 0 by { assert IsToken("a") && Slashes("a") == 0; }
    hide Scrub, LeavesOpen, IsToken, Slashes, TokenText;
    SegmentOfToken(pre, token, post);
    ScrubTokenText(pre, token, post);
    if '/' in token {
      TokenMasked(pre, plain, post);
      ScrubKeepsSlashes(TokenText(pre, plain, post));
      ScrubKeepsSlashes(TokenText(pre, token, post));
      TokenTextSlashes(pre, plain, post);
      TokenTextSlashes(pre, token, post);
    } else if !IsToken(token) {
      SlashStep("/" + post);
      SecondSlash(Scrub(pre), token, Scrub("/" + post), Scrub(post));
    } else {
      TokenMasked(pre, token, post);
    }
  }

  lemma SlashesJoin(a: string, b: string)
    ensures Slashes(a + b) == Slashes(a) + Slashes(b)
  {
  }

  lemma TokenTextSlashes(pre: string, token: string, post: string)
    ensures Slashes(TokenText(pre, token, post)) ==
            Slashes(pre) + Slashes(PREFIX) + Slashes(token) + Slashes("/") + Slashes(post)
  {
    hide Slashes;
    SlashesJoin(pre + PREFIX + token + "/", post);
    SlashesJoin(pre + PREFIX + token, "/");
    SlashesJoin(pre + PREFIX, token);
    SlashesJoin(pre, PREFIX);
  }

  lemma SecondSlash(head: string, segment: string, copied: string, tail: string)
    requires '/' !in segment && !IsToken(segment) && copied != "" && copied[0] == '/'
    ensures head + (PREFIX + segment + copied) != head + PLACEHOLDER + tail
  {
    var left, right := PREFIX + segment + copied, PLACEHOLDER + tail;
    if head + left == head + PLACEHOLDER + tail {
      assert head + PLACEHOLDER + tail == head + right;
      assert (head + left)[|head|..] == left && (head + right)[|head|..] == right;
      assert left == right;
      assert left[4 + |segment|] == '/' && right[11] == '/';
      assert forall k :: 0 <= k < |segment| ==> left[4 + k] == segment[k];
    }
  }

  /** The scrubbed text is the one that every ordinary token gives if and only if
      the token is ordinary itself (nonempty, without slash and white space) and
      the text before the URL's token segment leaves no candidate open. */
  lemma IndependentExactly(pre: string, token: string, post: string)
    ensures (forall u :: IsToken(u) ==> Scrub(TokenText(pre, token, post)) == Scrub(TokenText(pre, u, post)))
            <==> IsToken(token) && !LeavesOpen(pre)
  {
    hide Scrub, LeavesOpen, TokenText;
    assert IsToken("a") && IsToken("ab");
    if LeavesOpen(pre) {
      OpenCopiesToken(pre, "a", post);
      OpenCopiesToken(pre, "ab", post);
      assert |Scrub(TokenText(pre, "a", post))| != |Scrub(TokenText(pre, "ab", post))|;
    } else {
      MaskedExactly(pre, token, post);
      forall u | IsToken(u) ensures Scrub(TokenText(pre, u, post)) == Scrub(pre) + PLACEHOLDER + Scrub(post) {
        TokenMasked(pre, u, post);
      }
    }
  }

  /** Bot.url */
  function BotURL(base: string, token: string, endpoint: string): string {
    base + "/bot" + token + "/" + endpoint
  }

  /** An error text that quotes a URL built by the client scrubs to the same text for any two tokens. */
  lemma URLsIndistinguishable(lead: string, base: string, t: string, u: string, endpoint: string, trail: string)
    requires IsToken(t) && IsToken(u) && !LeavesOpen(lead + base)
    ensures Scrub(lead + BotURL(base, t, endpoint) + trail) == Scrub(lead + BotURL(base, u, endpoint) + trail)
  {
    hide Scrub, LeavesOpen;
    var pre, post := lead + base, endpoint + trail;
    assert lead + BotURL(base, t, endpoint) + trail == TokenText(pre, t, post);
    assert lead + BotURL(base, u, endpoint) + trail == TokenText(pre, u, post);
    TokenMasked(pre, t, post);
    TokenMasked(pre, u, post);
  }

  // ----- Texts without the letter that a candidate needs -----

  lemma {:induction false} NoCandidate(s: string)
    requires 'b' !in s
    ensures Scrub(s) == s && !LeavesOpen(s)
  {
    hide BodyLength;
    if s == "" {
    } else {
      NoCandidate(s[1..]);
      assert s == s[..1] + s[1..];
      NoMatchWithout(s, "");
    }
  }

  /** No candidate starts in a text without 'b'. */
  lemma NoMatchWithout(a: string, rest: string)
    requires a != "" && 'b' !in a && (rest == "" || rest[0] == '/')
    ensures MatchLength(a + rest) == 0 && !OpenHere(a + rest)
    ensures MatchLength(a) == 0 && !OpenHere(a)
  {
    assert PREFIX[1] == 'b';
    assert !(PREFIX <= a) && !(PREFIX <= a + rest) by {
      if |a| > 1 { assert (a + rest)[1] == a[1] && a[1] in a; }
    }
  }

  lemma {:induction false} OpenAfter(a: string, body: string)
    requires 'b' !in a && IsToken(body)
    ensures LeavesOpen(a + (PREFIX + body)) && OpenHead(a + (PREFIX + body)) == a
  {
    hide IsToken, BodyLength;
    var s := a + (PREFIX + body);
    if a == "" {
      assert s == PREFIX + body;
      OpenFirst(body);
    } else {
      NoMatchWithout(a, PREFIX + body);
      assert s[1..] == a[1..] + (PREFIX + body) && s[..1] == a[..1];
      OpenAfter(a[1..], body);
      assert a == a[..1] + a[1..];
    }
  }

  lemma OpenFirst(body: string)
    requires IsToken(body)
    ensures OpenHere(PREFIX + body)
  {
    assert (PREFIX + body)[4..] == body;
    BodyLengthIs(body, |body|);
  }

  /** A self-hosted base URL whose path begins with "bot" leaves a candidate
      open: its own last segment is masked and the token after it is copied. */
  lemma OpenBaseExample()
    ensures var pre := "Post \"http://host" + "/bots";
            && LeavesOpen(pre)
            && Scrub(TokenText(pre, "1:a", "send")) == "Post \"http://host" + PLACEHOLDER + "bot" + "1:a" + "/send"
  {
    hide Scrub, LeavesOpen, OpenHead, TokenText;
    var a := "Post \"http://host";
    assert PREFIX + "s" == "/bots";
    assert 'b' !in a;
    OpenAfter(a, "s");
    OpenCopiesToken(a + "/bots", "1:a", "send");
    assert "/" + "send" == "/send";
    NoCandidate("/send");
  }

  // ----- When scrubbing changes a text -----

  lemma FixedStep(s: string)
    requires s != "" && Scrub(s) == s
    ensures Emitted(s) == s[..Advance(s)] && Scrub(s[Advance(s)..]) == s[Advance(s)..]
  {
    hide MatchLength;
    var tail := Scrub(s[Advance(s)..]);
    assert s == Emitted(s) + tail;
    if MatchLength(s) > 0 {
      PlaceholderMatches(tail);
    } else {
      assert (s[..1] + tail)[1..] == tail;
    }
    assert |Emitted(s)| == Advance(s);
    assert s[..Advance(s)] == (Emitted(s) + tail)[..|Emitted(s)|] == Emitted(s);
  }

  lemma FixedSegmentFirst(token: string, post: string)
    requires IsToken(token)
    requires Scrub(PREFIX + token + "/" + post) == PREFIX + token + "/" + post
    ensures token == "<token>" && Scrub(post) == post
  {
    hide Scrub;
    var s := PREFIX + token + "/" + post;
    MatchIsTokenSegment(token, post);
    FixedStep(s);
    assert s[..|token| + 5] == PREFIX + token + "/";
    assert token == (PREFIX + token + "/")[4..4 + |token|];
    assert PLACEHOLDER == s[..|token| + 5];
    assert |PLACEHOLDER| == 12 && |token| == 7;
    assert PLACEHOLDER[4..11] == "<token>";
  }

  lemma StepIsPrefix(pre: string, rest: string)
    requires pre != "" && rest != "" && rest[0] == '/' && !OpenHere(pre)
    ensures Advance(pre + rest) == Advance(pre) && Emitted(pre + rest) == Emitted(pre)
  {
    hide MatchLength, OpenHere;
    MatchBeforeSlash(pre, rest);
    assert (pre + rest)[..1] == pre[..1];
  }

  /** One step of the scan before a slash changes nothing, and neither does the rest. */
  lemma FixedStepExactly(pre: string, rest: string)
    requires pre != "" && rest != "" && rest[0] == '/' && !OpenHere(pre)
    ensures var k := Advance(pre);
            Scrub(pre + rest) == pre + rest <==> Emitted(pre) == pre[..k] && Scrub(pre[k..] + rest) == pre[k..] + rest
  {
    hide Scrub, MatchLength, OpenHere, Emitted;
    var k := Advance(pre);
    StepBeforeSlash(pre, rest);
    StepIsPrefix(pre, rest);
    assert pre + rest == pre[..k] + (pre[k..] + rest);
    assert (pre + rest)[..k] == pre[..k] && (pre + rest)[k..] == pre[k..] + rest;
    if Scrub(pre + rest) == pre + rest { FixedStep(pre + rest); }
  }

  /** Scrubbing changes nothing around an open candidate exactly when it masks
      the candidate by itself and nothing else changes, whatever the token. */
  lemma {:induction false} FixedOpen(pre: string, token: string, post: string)
    requires LeavesOpen(pre) && '/' !in token
    ensures Scrub(TokenText(pre, token, post)) == TokenText(pre, token, post)
            <==> Scrub(pre + "/") == pre + "/" && Scrub("/" + post) == "/" + post
    ensures Scrub(pre + "/") == pre + "/" ==> '<' in pre
    decreases |pre|
  {
    hide Scrub, MatchLength, Emitted;
    var rest := PREFIX + token + "/" + post;
    assert TokenText(pre, token, post) == pre + rest;
    if OpenHere(pre) {
      assert pre == PREFIX + pre[4..];
      FixedOpenHere(pre[4..], token, post);
    } else {
      var k := Advance(pre);
      assert TokenText(pre[k..], token, post) == pre[k..] + rest;
      FixedOpen(pre[k..], token, post);
      FixedStepExactly(pre, rest);
      FixedStepExactly(pre, "/");
    }
  }

  lemma FixedOpenHere(body: string, token: string, post: string)
    requires IsToken(body) && '/' !in token
    ensures var pre := PREFIX + body;
            && (Scrub(TokenText(pre, token, post)) == TokenText(pre, token, post)
                <==> Scrub(pre + "/") == pre + "/" && Scrub("/" + post) == "/" + post)
            && (Scrub(pre + "/") == pre + "/" ==> '<' in pre)
  {
    hide Scrub, IsToken;
    var pre, copied := PREFIX + body, "bot" + token;
    var after := copied + ("/" + post);
    assert TokenText(pre, token, post) == PREFIX + body + "/" + after;
    SegmentFixed(body, after);
    assert pre + "/" == PREFIX + body + "/" + "";
    SegmentFixed(body, "");
    EmptyScrubs();
    SlashFreeKept(copied, "/" + post);
    assert (copied + Scrub("/" + post))[|copied|..] == Scrub("/" + post) && after[|copied|..] == "/" + post;
    assert "<token>"[0] == '<';
    assert body == "<token>" ==> pre[4] == '<';
  }

  lemma SegmentFixed(segment: string, post: string)
    requires IsToken(segment)
    ensures Scrub(PREFIX + segment + "/" + post) == PREFIX + segment + "/" + post
            <==> segment == "<token>" && Scrub(post) == post
  {
    hide Scrub;
    if Scrub(PREFIX + segment + "/" + post) == PREFIX + segment + "/" + post { FixedSegmentFirst(segment, post); }
    ScrubSegment(segment, post);
    assert PLACEHOLDER + post == PREFIX + "<token>" + "/" + post;
  }

  lemma {:induction false} FixedClosed(pre: string, rest: string)
    requires !LeavesOpen(pre) && rest != "" && rest[0] == '/'
    ensures Scrub(pre + rest) == pre + rest <==> Scrub(pre) == pre && Scrub(rest) == rest
    decreases |pre|
  {
    hide Scrub, MatchLength, Emitted, OpenHere;
    if pre == "" {
      assert pre + rest == rest;
      EmptyScrubs();
    } else {
      var k := Advance(pre);
      FixedStepExactly(pre, rest);
      FixedClosed(pre[k..], rest);
      FixedPrefix(pre);
    }
  }

  lemma FixedPrefix(pre: string)
    requires pre != ""
    ensures var k := Advance(pre);
            Scrub(pre) == pre <==> Emitted(pre) == pre[..k] && Scrub(pre[k..]) == pre[k..]
  {
    hide MatchLength, Emitted;
    if Scrub(pre) == pre { FixedStep(pre); }
    assert pre == pre[..Advance(pre)] + pre[Advance(pre)..];
  }

  lemma CopiedFixed(segment: string, post: string)
    requires '/' !in segment && !IsToken(segment)
    ensures Scrub(PREFIX + segment + "/" + post) == PREFIX + segment + "/" + post <==> Scrub("/" + post) == "/" + post
  {
    hide Scrub, IsToken;
    SegmentCopied(segment, post);
    var head := PREFIX + segment;
    assert head + "/" + post == head + ("/" + post);
    assert (head + Scrub("/" + post))[|head|..] == Scrub("/" + post) && (head + ("/" + post))[|head|..] == "/" + post;
  }

  /** The texts with a token, any token at all, that scrubbing leaves alone. */
  ghost predicate Survives(pre: string, token: string, post: string) {
    var segment, behind := Segment(token), Behind(token, post);
    if LeavesOpen(pre) then Scrub(pre + "/") == pre + "/" && Scrub("/" + behind) == "/" + behind
    else
      && Scrub(pre) == pre
      && if IsToken(segment) then segment == "<token>" && Scrub(behind) == behind
         else Scrub("/" + behind) == "/" + behind
  }

  /** Scrubbing leaves a text with a token alone exactly when the token segment
      is the placeholder, is no proper segment, or follows a candidate that is
      itself the placeholder, and the other parts do not change either. Without
      a '<' before and in a proper segment the text always changes. */
  lemma ChangesExactly(pre: string, token: string, post: string)
    ensures Scrub(TokenText(pre, token, post)) == TokenText(pre, token, post) <==> Survives(pre, token, post)
    ensures IsToken(Segment(token)) && '<' !in pre && '<' !in Segment(token) ==> !Survives(pre, token, post)
  {
    hide Scrub, LeavesOpen, IsToken, Segment, Behind;
    var segment, behind := Segment(token), Behind(token, post);
    SegmentOfToken(pre, token, post);
    if LeavesOpen(pre) {
      FixedOpen(pre, segment, behind);
    } else {
      var rest := PREFIX + segment + "/" + behind;
      assert TokenText(pre, segment, behind) == pre + rest;
      FixedClosed(pre, rest);
      if IsToken(segment) { SegmentFixed(segment, behind); } else { CopiedFixed(segment, behind); }
      assert segment == "<token>" ==> segment[0] == '<';
    }
  }
}
