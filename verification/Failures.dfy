/** Error values as chains of layers, the classification that drives retries
    (retry.go), and the errors one Bot API exchange can end in (client.go). */
module Failures {
  import opened Wrappers
  import opened Text
  import opened Scrubbing

  /** One error value of an Unwrap chain, by what errors.As can find it as.
      Network stands for any net.Error, *url.Error included. */
  datatype Layer =
    | Api(code: int, retryAfter: int)
    | PathError
    | Network
    | Other

  /** An error: its text and its chain of layers, outermost first. */
  datatype Failure = Failure(text: string, chain: seq<Layer>)

  /** errors.As for *APIError: the outermost API error of the chain. */
  function FirstApi(chain: seq<Layer>): (r: Option<Layer>)
    ensures r.Some? ==> r.value.Api? && r.value in chain
  {
    if chain == [] then None
    else if chain[0].Api? then Some(chain[0])
    else FirstApi(chain[1..])
  }

  predicate Transient(f: Failure) {
    match FirstApi(f.chain)
    case Some(api) => 500 <= api.code <= 599
    case None => PathError !in f.chain && Network in f.chain
  }

  /** What one send means to the retry loop. */
  datatype Outcome = Success | RateLimited(after: int) | Passing | Fatal

  /** The tests of the retry loop, in its order: no error, a 429 API error, a transient error. */
  function Classify(err: Option<Failure>): Outcome {
    match err
    case None => Success
    case Some(f) =>
      var api := FirstApi(f.chain);
      if api.Some? && api.value.code == 429 then RateLimited(api.value.retryAfter)
      else if Transient(f) then Passing
      else Fatal
  }

  /** It is the outermost one, and there is none only if the chain has none. */
  lemma {:induction false} FirstApiIsOutermost(chain: seq<Layer>, i: nat)
    requires i < |chain| && chain[i].Api? && forall j :: 0 <= j < i ==> !chain[j].Api?
    ensures FirstApi(chain) == Some(chain[i])
  {
    if i == 0 {
    } else {
      FirstApiIsOutermost(chain[1..], i - 1);
    }
  }

  lemma {:induction false} FirstApiSkips(a: seq<Layer>, wrappers: seq<Layer>, b: seq<Layer>)
    requires forall k :: 0 <= k < |wrappers| ==> wrappers[k] == Other
    ensures FirstApi(a + wrappers + b) == FirstApi(a + b)
    decreases |a| + |wrappers|
  {
    var long, short := a + wrappers + b, a + b;
    if a == [] && wrappers == [] {
      assert long == short;
    } else if a == [] {
      FirstApiSkips(a, wrappers[1..], b);
      assert long[1..] == a + wrappers[1..] + b && long[0] == wrappers[0];
    } else {
      FirstApiSkips(a[1..], wrappers, b);
      assert long[1..] == a[1..] + wrappers + b && short[1..] == a[1..] + b;
    }
  }

  /** Wrapping an error, at any depth and under any text, never changes its classification. */
  lemma WrappingIsInvisible(text: string, wrapped: string, a: seq<Layer>, wrappers: seq<Layer>, b: seq<Layer>)
    requires forall k :: 0 <= k < |wrappers| ==> wrappers[k] == Other
    ensures Classify(Some(Failure(wrapped, a + wrappers + b))) == Classify(Some(Failure(text, a + b)))
  {
    FirstApiSkips(a, wrappers, b);
    assert forall l :: l != Other ==> (l in a + wrappers + b <==> l in a + b);
  }

  // ----- One exchange -----

  /** scrubTokenErr: an error whose text changes is rebuilt from its text alone. */
  function ScrubFailure(f: Failure): Failure {
    if Scrub(f.text) == f.text then f else Failure(Scrub(f.text), [Other])
  }

  datatype Body =
    | Undecodable(problem: string)
    | Envelope(ok: bool, code: int, retryAfter: int, description: string, usable: bool)

  /** How one exchange with the server went. */
  datatype Exchange =
    | NotBuilt(problem: Failure)    // the request itself is refused
    | NotDone(problem: Failure)     // client.Do fails
    | BodyUnread(problem: Failure)  // reading the response body fails
    | Answered(status: int, body: Body)

  /** APIError.Error */
  function ApiError(code: int, retryAfter: int, description: string): Failure {
    Failure("HTTP " + DecimalInt(code) + ": " + description, [Api(code, retryAfter)])
  }

  function InvalidJSON(status: int): string {
    "invalid JSON response from Telegram (HTTP " + DecimalInt(status) + ")"
  }

  /** The error a send returns: Bot.call, decodeEnvelope, and reading the result. */
  function SendError(x: Exchange): Option<Failure> {
    match x
    case NotBuilt(f) => Some(f)
    case NotDone(f) => Some(ScrubFailure(f))
    case BodyUnread(f) => Some(f)
    case Answered(status, Undecodable(problem)) =>
      if status >= 500 then Some(ApiError(status, 0, InvalidJSON(status)))
      else Some(Failure(InvalidJSON(status) + ": " + problem, [Other, Other]))
    case Answered(status, Envelope(ok, code, retryAfter, description, usable)) =>
      if !ok then Some(ApiError(if code == 0 then status else code, retryAfter, description))
      else if usable then None
      else Some(Failure("unexpected result", [Other, Other]))
  }

  /** An error of the transport, which knows no API errors. */
  ghost predicate FromTransport(f: Failure) {
    forall k :: 0 <= k < |f.chain| ==> !f.chain[k].Api?
  }

  ghost predicate Plausible(x: Exchange) {
    !x.Answered? ==> FromTransport(x.problem)
  }

  predicate IsNetworkFailure(f: Failure) {
    Network in f.chain && PathError !in f.chain
  }

  lemma {:induction false} NoApi(chain: seq<Layer>)
    requires forall k :: 0 <= k < |chain| ==> !chain[k].Api?
    ensures FirstApi(chain) == None
  {
    if chain == [] {
    } else {
      NoApi(chain[1..]);
    }
  }

  lemma ChainOfOne(l: Layer)
    ensures FirstApi([l]) == (if l.Api? then Some(l) else None)
    ensures FirstApi([Other, Other]) == None
  {
  }

  /** From an exchange to the retry decision, in all cases. A 429 counts only
      inside a decoded envelope, where the error code, if there is one, takes
      precedence over the status; a failed client.Do is retried only if its text
      survives scrubbing, a failed body read whatever its text. */
  lemma DecisionOfExchange(x: Exchange)
    requires Plausible(x)
    ensures var d := Classify(SendError(x));
            && (d.Success? <==> x.Answered? && x.body.Envelope? && x.body.ok && x.body.usable)
            && (d.RateLimited? <==> x.Answered? && x.body.Envelope? && !x.body.ok
                                    && (x.body.code == 429 || (x.body.code == 0 && x.status == 429)))
            && (d.RateLimited? ==> d.after == x.body.retryAfter)
            && (d.Passing? <==>
                match x
                case NotBuilt(f) => Network in f.chain && PathError !in f.chain
                case NotDone(f) => Network in f.chain && PathError !in f.chain && Scrub(f.text) == f.text
                case BodyUnread(f) => Network in f.chain && PathError !in f.chain
                case Answered(status, Undecodable(_)) => 500 <= status <= 599
                case Answered(status, Envelope(ok, code, _, _, _)) =>
                  !ok && (500 <= code <= 599 || (code == 0 && 500 <= status <= 599)))
  {
    hide Scrub;
    ChainOfOne(Other);
    match x
    case NotBuilt(f) => NoApi(f.chain);
    case NotDone(f) => NoApi(f.chain);
    case BodyUnread(f) => NoApi(f.chain);
    case Answered(status, body) =>
      var err := SendError(x);
      if err.Some? && |err.value.chain| == 1 { ChainOfOne(err.value.chain[0]); }
  }

  /** What the user is told about an answered error: the code and the server's own words. */
  lemma ApiErrorText(status: int, code: int, retryAfter: int, description: string)
    ensures var err := SendError(Answered(status, Envelope(false, code, retryAfter, description, false)));
            var shown := if code == 0 then status else code;
            && err.Some?
            && ReadInt(err.value.text[5..5 + |DecimalInt(shown)|]) == shown
            && err.value.text == "HTTP " + DecimalInt(shown) + ": " + description
  {
    hide DecimalInt, ReadInt;
    var shown := if code == 0 then status else code;
    IntReadsBack(shown);
    assert ("HTTP " + DecimalInt(shown) + ": " + description)[5..5 + |DecimalInt(shown)|] == DecimalInt(shown);
  }

  /** A missing local file fails at once, although its innermost error counts as a network error. */
  lemma MissingFileExample()
    ensures Classify(Some(Failure("open x.jpg: no such file or directory", [PathError, Network]))) == Fatal
    ensures Classify(Some(Failure("no such file or directory", [Network]))) == Passing
  {
    NoApi([PathError, Network]);
    NoApi([Network]);
  }

  /** The text of a *url.Error: operation, quoted URL, cause. The URL is as
      URL.String prints it, in characters that quoting leaves alone. */
  function TransportText(op: string, url: string, cause: string): string {
    op + " \"" + url + "\": " + cause
  }

  /** A client.Do error quotes the request URL, so scrubbing rebuilds it without
      its network layer and it ends the run, contrary to README.md:370-371, with
      any base URL, if the URL's token segment is a proper one (nonempty, without
      white space) and no '<' is printed in it or before it; URL.String prints
      none in a path. In general such an error is retried if and only if its text
      survives scrubbing. */
  lemma QuotedURLIsNotRetried(f: Failure, op: string, base: string, token: string, endpoint: string, cause: string)
    requires FromTransport(f) && IsNetworkFailure(f)
    requires f.text == TransportText(op, BotURL(base, token, endpoint), cause)
    ensures Classify(SendError(BodyUnread(f))) == Passing
    ensures IsToken(Segment(token)) && '<' !in op + base + Segment(token) ==> Classify(SendError(NotDone(f))) == Fatal
    ensures Classify(SendError(NotDone(f))) ==
            if Survives(op + " \"" + base, token, endpoint + "\": " + cause) then Passing else Fatal
  {
    hide Scrub, Survives, IsToken, Segment;
    var pre, post := op + " \"" + base, endpoint + "\": " + cause;
    assert f.text == TokenText(pre, token, post);
    ChangesExactly(pre, token, post);
    NoApi(f.chain);
    DecisionOfExchange(NotDone(f));
    DecisionOfExchange(BodyUnread(f));
  }

  const API := "https://api.telegram.org"

  /** A refused connection to the default server is not retried. */
  lemma RefusedConnectionExample()
    ensures var text := TransportText("Post", BotURL(API, "1:a", "sendMessage"), "connection refused");
            var f := Failure(text, [Network, Network]);
            && Classify(Some(f)) == Passing
            && Classify(SendError(NotDone(f))) == Fatal
  {
    hide Scrub, LeavesOpen, TransportText, BotURL;
    var text := TransportText("Post", BotURL(API, "1:a", "sendMessage"), "connection refused");
    NothingOpen("Post" + " \"");
    QuotedURLIsNotRetried(Failure(text, [Network, Network]), "Post", API, "1:a", "sendMessage", "connection refused");
  }

  /** The empty token leaves no token segment, so the same failure keeps its
      network layer and is retried. */
  lemma EmptyTokenExample()
    ensures var text := TransportText("Get", BotURL(API, "", "getMe"), "refused");
            var f := Failure(text, [Network, Network]);
            SendError(NotDone(f)) == Some(f) && Classify(SendError(NotDone(f))) == Passing
  {
    hide Scrub, LeavesOpen, TransportText, BotURL, Survives;
    var text := TransportText("Get", BotURL(API, "", "getMe"), "refused");
    var f := Failure(text, [Network, Network]);
    EmptyTokenSurvives();
    QuotedURLIsNotRetried(f, "Get", API, "", "getMe", "refused");
    DecisionOfExchange(NotDone(f));
  }

  lemma EmptyTokenSurvives()
    ensures Survives("Get" + " \"" + API, "", "getMe" + "\": " + "refused")
  {
    hide Scrub, LeavesOpen;
    var post := "getMe" + "\": " + "refused";
    NothingOpen("Get" + " \"");
    assert 'b' !in "/" + post;
    NoCandidate("/" + post);
  }

  /** A token with a slash: the error of client.Do shows what follows the slash,
      and so does the command's last line. */
  lemma SlashTokenExample()
    ensures var text := TransportText("Post", BotURL(API, "1:a/xyz", "sendMessage"), "refused");
            var masked := "Post \"" + API + "/bot<token>/" + "xyz/sendMessage\": refused";
            && SendError(NotDone(Failure(text, [Network]))).value.text == masked
            && Printed(text) == "Failed: " + masked
  {
    hide Scrub;
    var pre, post := "Post" + " \"" + API, "sendMessage" + "\": " + "refused";
    var text := TransportText("Post", BotURL(API, "1:a/xyz", "sendMessage"), "refused");
    assert text == TokenText(pre, "1:a/xyz", post);
    SlashTokenScrubbed(pre, post);
    assert pre + PLACEHOLDER + ("xyz/" + post) ==
           "Post \"" + API + "/bot<token>/" + "xyz/sendMessage\": refused";
  }

  lemma SlashTokenScrubbed(pre: string, post: string)
    requires pre == "Post" + " \"" + API && 'b' !in post
    ensures Scrub(TokenText(pre, "1:a/xyz", post)) == pre + PLACEHOLDER + ("xyz/" + post)
  {
    hide Scrub, LeavesOpen, TokenText, IsToken, Segment, Behind;
    SlashTokenParts(post);
    ScrubTokenText(pre, "1:a/xyz", post);
    NothingOpen("Post" + " \"");
    assert "xyz" + "/" == "xyz/" && 'b' !in "xyz/";
    NoCandidate("xyz/" + post);
  }

  lemma SlashTokenParts(post: string)
    ensures Segment("1:a/xyz") == "1:a" && Behind("1:a/xyz", post) == "xyz" + "/" + post && IsToken("1:a")
  {
    assert SlashIndex("1:a/xyz") == 3;
  }

  /** The text that a refused connection comes with, on a self-hosted server. */
  lemma RefusedConnectionText()
    ensures TransportText("Get", BotURL("http://h", "1:a", "getMe"), "refused") ==
            "Get \"http://h/bot1:a/getMe\": refused"
  {
  }

  /** The default base URL opens no candidate. */
  lemma NothingOpen(lead: string)
    requires 'b' !in lead
    ensures !LeavesOpen(lead + API) && Scrub(lead + API) == lead + API
  {
    hide Scrub, LeavesOpen;
    assert 'b' !in API;
    NoCandidate(lead + API);
  }

  // ----- Where an error can carry the token -----

  /** The step of an exchange that fails. */
  datatype Place = Building | Doing | Reading

  function FailingAt(place: Place, f: Failure): Exchange {
    match place case Building => NotBuilt(f) case Doing => NotDone(f) case Reading => BodyUnread(f)
  }

  /** The text of the error that a failing step's text with a token segment is returned as. */
  function ErrorText(place: Place, chain: seq<Layer>, pre: string, token: string, post: string): string {
    SendError(FailingAt(place, Failure(TokenText(pre, token, post), chain))).value.text
  }

  /** The line logged before a backoff, up to the part that does not name the error. */
  function LogLine(text: string, rest: string): string {
    "Transient error (" + text + ")" + rest
  }

  /** What the retry loop logs about the error of a send before a backoff, if it backs off. */
  function Logged(x: Exchange, rest: string): Option<string> {
    if Classify(SendError(x)).Passing? then Some(LogLine(SendError(x).value.text, rest)) else None
  }

  /** What the command prints for a final error. */
  function Printed(text: string): string {
    "Failed: " + Scrub(text)
  }

  /** An error is the one that every ordinary token gives if and only if the
      token is ordinary itself (nonempty, without slash and white space), the
      error comes from client.Do, and no candidate is open before the token:
      building a request and reading a body return errors unscrubbed. For the
      command's last line it does not matter where the error comes from. */
  lemma ErrorsIndependentExactly(place: Place, chain: seq<Layer>, pre: string, token: string, post: string)
    ensures (forall u :: IsToken(u) ==>
               ErrorText(place, chain, pre, token, post) == ErrorText(place, chain, pre, u, post))
            <==> place.Doing? && IsToken(token) && !LeavesOpen(pre)
    ensures (forall u :: IsToken(u) ==>
               Printed(ErrorText(place, chain, pre, token, post)) == Printed(ErrorText(place, chain, pre, u, post)))
            <==> IsToken(token) && !LeavesOpen(pre)
  {
    hide Scrub, LeavesOpen, IsToken, Printed, TokenText, ErrorText;
    forall t ensures ErrorText(place, chain, pre, t, post) ==
                     if place.Doing? then Scrub(TokenText(pre, t, post)) else TokenText(pre, t, post) {
      ErrorTextIs(place, chain, pre, t, post);
    }
    forall u
      ensures Printed(ErrorText(place, chain, pre, token, post)) == Printed(ErrorText(place, chain, pre, u, post))
              <==> Scrub(TokenText(pre, token, post)) == Scrub(TokenText(pre, u, post))
    {
      PrintedInjective(ErrorText(place, chain, pre, token, post), ErrorText(place, chain, pre, u, post));
      ScrubIdempotent(TokenText(pre, token, post));
      ScrubIdempotent(TokenText(pre, u, post));
    }
    IndependentExactly(pre, token, post);
    TwoTokens(pre, post);
  }

  lemma ErrorTextIs(place: Place, chain: seq<Layer>, pre: string, t: string, post: string)
    ensures ErrorText(place, chain, pre, t, post) ==
            if place.Doing? then Scrub(TokenText(pre, t, post)) else TokenText(pre, t, post)
  {
    hide Scrub, TokenText;
  }

  /** What is logged about a failing step whose text holds a token. */
  lemma LoggedIs(place: Place, chain: seq<Layer>, pre: string, token: string, post: string, rest: string)
    requires FromTransport(Failure("", chain))
    ensures var f := Failure(TokenText(pre, token, post), chain);
            Logged(FailingAt(place, f), rest) ==
            if IsNetworkFailure(f) && (place.Doing? ==> Survives(pre, token, post))
            then Some(LogLine(f.text, rest)) else None
  {
    hide Scrub, TokenText, Survives, LogLine, Segment, IsToken;
    ChangesExactly(pre, token, post);
    DecisionOfExchange(FailingAt(place, Failure(TokenText(pre, token, post), chain)));
  }

  /** The log says nothing about an ordinary token, other than the placeholder,
      if and only if it says nothing at all: the error is no network failure, or
      it comes from client.Do and scrubbing rewrites it, which it does unless the
      text before the token ends in a candidate that is itself the placeholder. */
  lemma LogsIndependentExactly(place: Place, chain: seq<Layer>, pre: string, post: string, rest: string)
    requires FromTransport(Failure("", chain))
    ensures var shown := LeavesOpen(pre) && Scrub(pre + "/") == pre + "/" && Scrub("/" + post) == "/" + post;
            var silent := !IsNetworkFailure(Failure("", chain)) || (place.Doing? && !shown);
            && ((forall t, u :: IsToken(t) && IsToken(u) && t != "<token>" && u != "<token>" ==>
                   Logged(FailingAt(place, Failure(TokenText(pre, t, post), chain)), rest) ==
                   Logged(FailingAt(place, Failure(TokenText(pre, u, post), chain)), rest))
                <==> silent)
            && (silent ==> forall t :: IsToken(t) && t != "<token>" ==>
                  Logged(FailingAt(place, Failure(TokenText(pre, t, post), chain)), rest) == None)
  {
    hide Scrub, LeavesOpen, IsToken, Segment, Behind, TokenText, LogLine, Logged, FromTransport;
    forall t | IsToken(t)
      ensures Segment(t) == t && Behind(t, post) == post
      ensures var f := Failure(TokenText(pre, t, post), chain);
              Logged(FailingAt(place, f), rest) ==
              if IsNetworkFailure(f) && (place.Doing? ==> Survives(pre, t, post))
              then Some(LogLine(f.text, rest)) else None
    {
      SegmentOfToken(pre, t, post);
      LoggedIs(place, chain, pre, t, post, rest);
    }
    TwoTokens(pre, post);
    LogLineInjective(TokenText(pre, "a", post), TokenText(pre, "ab", post), rest);
  }

  lemma LogLineInjective(a: string, b: string, rest: string)
    ensures LogLine(a, rest) == LogLine(b, rest) <==> a == b
  {
    var n := |"Transient error ("|;
    assert LogLine(a, rest)[n..n + |a|] == a;
    assert |LogLine(a, rest)| == |LogLine(b, rest)| ==> LogLine(b, rest)[n..n + |a|] == b;
  }

  lemma PrintedInjective(a: string, b: string)
    ensures Printed(a) == Printed(b) <==> Scrub(a) == Scrub(b)
  {
    hide Scrub;
    assert Printed(a)[|"Failed: "|..] == Scrub(a) && Printed(b)[|"Failed: "|..] == Scrub(b);
  }

  /** Unscrubbed texts tell tokens apart. */
  lemma TwoTokens(pre: string, post: string)
    ensures IsToken("a") && IsToken("ab") && TokenText(pre, "a", post) != TokenText(pre, "ab", post)
  {
    assert |TokenText(pre, "a", post)| != |TokenText(pre, "ab", post)|;
  }

  /** A token that is no valid URL escape: the error of building the request is
      returned as it is, counts as transient, is logged with the token at every
      retry, and only the command's last line masks the URL in it. */
  lemma UnbuiltRequestExample(rest: string)
    ensures var pre, post := "parse \"" + API, "sendMessage\": invalid URL escape \"%zz\"";
            var text := pre + PREFIX + "1:a%zz" + "/" + post;
            var f := Failure(text, [Network, Other]);
            && SendError(NotBuilt(f)) == Some(f) && Classify(SendError(NotBuilt(f))) == Passing
            && Logged(NotBuilt(f), rest) == Some("Transient error (" + text + ")" + rest)
            && Printed(f.text) == "Failed: " + (pre + PLACEHOLDER + post)
  {
    hide Scrub, LeavesOpen;
    var pre, post := "parse \"" + API, "sendMessage\": invalid URL escape \"%zz\"";
    var text := TokenText(pre, "1:a%zz", post);
    NothingOpen("parse \"");
    assert 'b' !in post;
    NoCandidate(post);
    TokenMasked(pre, "1:a%zz", post);
    DecisionOfExchange(NotBuilt(Failure(text, [Network, Other])));
  }

  /** The library's scrub and the command's scrub of the printed error are one scrub. */
  lemma PrintedErrorScrubbedOnce(f: Failure)
    ensures Printed(ScrubFailure(f).text) == Printed(f.text)
  {
    ScrubIdempotent(f.text);
  }
}
