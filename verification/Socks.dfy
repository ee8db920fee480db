/** The SOCKS5 server handshake of internal/testproxy/socks5.go (RFC 1928
    sections 3 to 6, RFC 1929 section 2) over an arbitrary client byte stream. */
module Socks {
  import opened Wrappers

  type byte = b: int | 0 <= b < 256

  const VERSION: byte := 5
  const NO_AUTH: byte := 0
  const USER_PASS: byte := 2
  const NO_METHOD: byte := 0xFF
  const CONNECT: byte := 1
  const ATYP_IPV4: byte := 1
  const ATYP_NAME: byte := 3
  const ATYP_IPV6: byte := 4
  const REP_SUCCESS: byte := 0
  const REP_REFUSED: byte := 5
  const REP_COMMAND: byte := 7
  const REP_ADDRESS: byte := 8
  const AUTH_VERSION: byte := 1
  const AUTH_SUCCESS: byte := 0
  const AUTH_FAILURE: byte := 1

  /** The credentials the server requires; an empty user means none. */
  datatype Config = Config(user: seq<byte>, pass: seq<byte>)

  datatype Address = IPv4(octets: seq<byte>) | IPv6(octets: seq<byte>) | Name(octets: seq<byte>)

  datatype Target = Target(host: Address, port: int)

  datatype Handshake = Handshake(version: byte, offered: seq<byte>, selected: byte,
                                 user: seq<byte>, pass: seq<byte>, target: Target)

  /** A value read from the front of a stream, and what is left of it. */
  datatype Read<+T> = Got(value: T, rest: seq<byte>) | Short

  // ----- The reading functions -----

  function ReadExactly(input: seq<byte>, n: nat): Read<seq<byte>> {
    if n <= |input| then Got(input[..n], input[n..]) else Short
  }

  function ReadPrefixed(input: seq<byte>): Read<seq<byte>> {
    match ReadExactly(input, 1)
    case Short => Short
    case Got(len, rest) => ReadExactly(rest, len[0])
  }

  function BigEndian(high: int, low: int): int {
    256 * high + low
  }

  function ReadPort(input: seq<byte>): Read<int> {
    match ReadExactly(input, 2)
    case Short => Short
    case Got(b, rest) => Got(BigEndian(b[0], b[1]), rest)
  }

  function ReadHost(input: seq<byte>, atyp: byte): Read<Address> {
    if atyp == ATYP_IPV4 then
      match ReadExactly(input, 4) case Short => Short case Got(b, rest) => Got(IPv4(b), rest)
    else if atyp == ATYP_IPV6 then
      match ReadExactly(input, 16) case Short => Short case Got(b, rest) => Got(IPv6(b), rest)
    else if atyp == ATYP_NAME then
      match ReadPrefixed(input) case Short => Short case Got(b, rest) => Got(Name(b), rest)
    else Short
  }

  function ReadTarget(input: seq<byte>, atyp: byte): Read<Target> {
    match ReadHost(input, atyp)
    case Short => Short
    case Got(host, rest) =>
      match ReadPort(rest)
      case Short => Short
      case Got(port, rest') => Got(Target(host, port), rest')
  }

  /** The RFC 1929 subnegotiation: user and password. */
  function ReadCredentials(input: seq<byte>): Read<(seq<byte>, seq<byte>)> {
    match ReadExactly(input, 1)
    case Short => Short
    case Got(ver, rest) =>
      if ver[0] != AUTH_VERSION then Short
      else
        match ReadPrefixed(rest)
        case Short => Short
        case Got(user, rest') =>
          match ReadPrefixed(rest')
          case Short => Short
          case Got(pass, rest'') => Got((user, pass), rest'')
  }

  function ReadGreeting(input: seq<byte>): Read<seq<byte>> {
    match ReadExactly(input, 2)
    case Short => Short
    case Got(header, rest) => if header[0] != VERSION then Short else ReadExactly(rest, header[1])
  }

  // ----- The server's side of one connection -----

  /** What the server would do with a stream, were all its writes delivered:
      the bytes it answers, the handshake it records once the first `before`
      of them are written, and what it leaves unread at that point. */
  datatype Script = Script(replies: seq<byte>, recorded: Option<Handshake>, before: nat, unread: seq<byte>)

  function ReplyBytes(rep: byte): (r: seq<byte>)
    ensures |r| == 10 && r[1] == rep
  {
    [VERSION, rep, 0, ATYP_IPV4, 0, 0, 0, 0, 0, 0]
  }

  function Selected(cfg: Config): byte {
    if cfg.user == [] then NO_AUTH else USER_PASS
  }

  /** The request, after `written` has been answered; `dials` says whether a target can be reached. */
  function ServeRequest(dials: Target -> bool, offered: seq<byte>, selected: byte, user: seq<byte>, pass: seq<byte>,
                        written: seq<byte>, input: seq<byte>): Script
  {
    match ReadExactly(input, 4)
    case Short => Script(written, None, 0, [])
    case Got(req, rest) =>
      if req[1] != CONNECT then Script(written + ReplyBytes(REP_COMMAND), None, 0, rest)
      else
        match ReadTarget(rest, req[3])
        case Short => Script(written + ReplyBytes(REP_ADDRESS), None, 0, [])
        case Got(target, rest') =>
          Script(written + ReplyBytes(if dials(target) then REP_SUCCESS else REP_REFUSED),
                 Some(Handshake(VERSION, offered, selected, user, pass, target)), |written|, rest')
  }

  function Serve(cfg: Config, dials: Target -> bool, input: seq<byte>): Script {
    match ReadGreeting(input)
    case Short => Script([], None, 0, [])
    case Got(offered, rest) =>
      if cfg.user != [] && USER_PASS !in offered then Script([VERSION, NO_METHOD], None, 0, rest)
      else if cfg.user == [] then ServeRequest(dials, offered, NO_AUTH, [], [], [VERSION, NO_AUTH], rest)
      else
        match ReadCredentials(rest)
        case Short => Script([VERSION, USER_PASS], None, 0, [])
        case Got((user, pass), rest') =>
          if user != cfg.user || pass != cfg.pass
          then Script([VERSION, USER_PASS, AUTH_VERSION, AUTH_FAILURE], None, 0, rest')
          else ServeRequest(dials, offered, USER_PASS, user, pass,
                            [VERSION, USER_PASS, AUTH_VERSION, AUTH_SUCCESS], rest')
  }

  // ----- The messages a client sends -----

  /** A client's whole handshake. The request's version and reserved bytes are
      free: the server does not look at them. */
  datatype Message = Message(offered: seq<byte>, user: seq<byte>, pass: seq<byte>,
                             version: byte, reserved: byte, target: Target)

  predicate WellFormedAddress(a: Address) {
    match a
    case IPv4(b) => |b| == 4
    case IPv6(b) => |b| == 16
    case Name(b) => |b| <= 255
  }

  /** The handshakes a server with configuration `cfg` is meant to accept. */
  predicate Acceptable(cfg: Config, m: Message) {
    && |m.offered| <= 255
    && WellFormedAddress(m.target.host) && 0 <= m.target.port < 0x1_0000
    && (if cfg.user == [] then m.user == [] && m.pass == []
        else m.user == cfg.user && m.pass == cfg.pass && |m.user| <= 255 && |m.pass| <= 255 && USER_PASS in m.offered)
  }

  function EncodeGreeting(offered: seq<byte>): seq<byte>
    requires |offered| <= 255
  {
    [VERSION, |offered|] + offered
  }

  function EncodePrefixed(b: seq<byte>): seq<byte>
    requires |b| <= 255
  {
    [|b|] + b
  }

  function EncodeCredentials(user: seq<byte>, pass: seq<byte>): seq<byte>
    requires |user| <= 255 && |pass| <= 255
  {
    [AUTH_VERSION] + (EncodePrefixed(user) + EncodePrefixed(pass))
  }

  function AddressType(a: Address): byte {
    match a case IPv4(_) => ATYP_IPV4 case IPv6(_) => ATYP_IPV6 case Name(_) => ATYP_NAME
  }

  function EncodeHost(a: Address): seq<byte>
    requires WellFormedAddress(a)
  {
    if a.Name? then EncodePrefixed(a.octets) else a.octets
  }

  function EncodePort(port: int): seq<byte>
    requires 0 <= port < 0x1_0000
  {
    [port / 256, port % 256]
  }

  function EncodeTarget(t: Target): seq<byte>
    requires WellFormedAddress(t.host) && 0 <= t.port < 0x1_0000
  {
    EncodeHost(t.host) + EncodePort(t.port)
  }

  function EncodeRequest(m: Message): seq<byte>
    requires WellFormedAddress(m.target.host) && 0 <= m.target.port < 0x1_0000
  {
    [m.version, CONNECT, m.reserved, AddressType(m.target.host)] + EncodeTarget(m.target)
  }

  function Encode(cfg: Config, m: Message): seq<byte>
    requires Acceptable(cfg, m)
  {
    EncodeGreeting(m.offered)
    + ((if cfg.user == [] then [] else EncodeCredentials(m.user, m.pass)) + EncodeRequest(m))
  }

  /** The handshake the server is to record for a message. */
  function HandshakeOf(cfg: Config, m: Message): Handshake {
    Handshake(VERSION, m.offered, Selected(cfg), m.user, m.pass, m.target)
  }

  // ----- Reading is the inverse of encoding, both ways -----

  lemma ExactlyRoundTrip(b: seq<byte>, tail: seq<byte>)
    ensures ReadExactly(b + tail, |b|) == Got(b, tail)
  {
  }

  lemma ExactlySound(input: seq<byte>, n: nat)
    ensures ReadExactly(input, n).Got? ==>
              |ReadExactly(input, n).value| == n
              && input == ReadExactly(input, n).value + ReadExactly(input, n).rest
  {
  }

  lemma PrefixedRoundTrip(b: seq<byte>, tail: seq<byte>)
    requires |b| <= 255
    ensures ReadPrefixed(EncodePrefixed(b) + tail) == Got(b, tail)
  {
    hide ReadExactly;
    assert EncodePrefixed(b) + tail == [|b|] + (b + tail);
    ExactlyRoundTrip([|b|], b + tail);
    ExactlyRoundTrip(b, tail);
  }

  lemma PortRoundTrip(port: int, tail: seq<byte>)
    requires 0 <= port < 0x1_0000
    ensures ReadPort(EncodePort(port) + tail) == Got(port, tail)
  {
  }

  lemma TargetRoundTrip(t: Target, tail: seq<byte>)
    requires WellFormedAddress(t.host) && 0 <= t.port < 0x1_0000
    ensures ReadTarget(EncodeTarget(t) + tail, AddressType(t.host)) == Got(t, tail)
  {
    hide ReadExactly, ReadPrefixed, ReadPort, EncodePort, EncodePrefixed;
    var rest := EncodePort(t.port) + tail;
    assert EncodeTarget(t) + tail == EncodeHost(t.host) + rest;
    if t.host.Name? { PrefixedRoundTrip(t.host.octets, rest); } else { ExactlyRoundTrip(t.host.octets, rest); }
    PortRoundTrip(t.port, tail);
  }

  lemma TargetSound(input: seq<byte>, atyp: byte)
    ensures var r := ReadTarget(input, atyp);
            r.Got? ==>
              && WellFormedAddress(r.value.host) && 0 <= r.value.port < 0x1_0000
              && AddressType(r.value.host) == atyp && input == EncodeTarget(r.value) + r.rest
  {
  }

  lemma CredentialsRoundTrip(user: seq<byte>, pass: seq<byte>, tail: seq<byte>)
    requires |user| <= 255 && |pass| <= 255
    ensures ReadCredentials(EncodeCredentials(user, pass) + tail) == Got((user, pass), tail)
  {
    hide ReadExactly, ReadPrefixed, EncodePrefixed;
    var second := EncodePrefixed(pass) + tail;
    var first := EncodePrefixed(user) + second;
    assert EncodeCredentials(user, pass) + tail == [AUTH_VERSION] + first;
    ExactlyRoundTrip([AUTH_VERSION], first);
    PrefixedRoundTrip(user, second);
    PrefixedRoundTrip(pass, tail);
  }

  lemma CredentialsSound(input: seq<byte>)
    ensures var r := ReadCredentials(input);
            r.Got? ==> |r.value.0| <= 255 && |r.value.1| <= 255
                       && input == EncodeCredentials(r.value.0, r.value.1) + r.rest
  {
  }

  lemma GreetingRoundTrip(offered: seq<byte>, tail: seq<byte>)
    requires |offered| <= 255
    ensures ReadGreeting(EncodeGreeting(offered) + tail) == Got(offered, tail)
  {
    hide ReadExactly;
    assert EncodeGreeting(offered) + tail == [VERSION, |offered|] + (offered + tail);
    ExactlyRoundTrip([VERSION, |offered|], offered + tail);
    ExactlyRoundTrip(offered, tail);
  }

  lemma GreetingSound(input: seq<byte>)
    ensures var r := ReadGreeting(input);
            r.Got? ==> |r.value| <= 255 && input == EncodeGreeting(r.value) + r.rest
  {
  }

  lemma RequestRoundTrip(dials: Target -> bool, m: Message, selected: byte, written: seq<byte>, tail: seq<byte>)
    requires WellFormedAddress(m.target.host) && 0 <= m.target.port < 0x1_0000
    ensures var s := ServeRequest(dials, m.offered, selected, m.user, m.pass, written, EncodeRequest(m) + tail);
            && s.recorded == Some(Handshake(VERSION, m.offered, selected, m.user, m.pass, m.target))
            && s.before == |written| && s.unread == tail
            && s.replies == written + ReplyBytes(if dials(m.target) then REP_SUCCESS else REP_REFUSED)
  {
    hide ReadExactly, ReadTarget, EncodeTarget;
    var head := [m.version, CONNECT, m.reserved, AddressType(m.target.host)];
    assert EncodeRequest(m) + tail == head + (EncodeTarget(m.target) + tail);
    ExactlyRoundTrip(head, EncodeTarget(m.target) + tail);
    TargetRoundTrip(m.target, tail);
  }

  /** Completeness: every acceptable handshake, whatever follows it, is recorded
      with its own values, and exactly what follows is left unread. */
  lemma RoundTrip(cfg: Config, dials: Target -> bool, m: Message, tail: seq<byte>)
    requires Acceptable(cfg, m)
    ensures var s := Serve(cfg, dials, Encode(cfg, m) + tail);
            s.recorded == Some(HandshakeOf(cfg, m)) && s.unread == tail
  {
    hide ServeRequest, ReadCredentials, EncodeCredentials, EncodeRequest, EncodeGreeting, ReadGreeting;
    var request := EncodeRequest(m) + tail;
    if cfg.user == [] {
      assert Encode(cfg, m) + tail == EncodeGreeting(m.offered) + request;
      GreetingRoundTrip(m.offered, request);
      RequestRoundTrip(dials, m, NO_AUTH, [VERSION, NO_AUTH], tail);
    } else {
      var auth := EncodeCredentials(m.user, m.pass) + request;
      assert Encode(cfg, m) + tail == EncodeGreeting(m.offered) + auth;
      GreetingRoundTrip(m.offered, auth);
      CredentialsRoundTrip(m.user, m.pass, request);
      RequestRoundTrip(dials, m, USER_PASS, [VERSION, USER_PASS, AUTH_VERSION, AUTH_SUCCESS], tail);
    }
  }

  lemma RequestSound(dials: Target -> bool, offered: seq<byte>, selected: byte, user: seq<byte>, pass: seq<byte>,
                     written: seq<byte>, input: seq<byte>) returns (m: Message)
    ensures var s := ServeRequest(dials, offered, selected, user, pass, written, input);
            s.recorded.Some? ==>
              && WellFormedAddress(m.target.host) && 0 <= m.target.port < 0x1_0000
              && m.offered == offered && m.user == user && m.pass == pass
              && input == EncodeRequest(m) + s.unread
              && s.recorded.value == Handshake(VERSION, offered, selected, user, pass, m.target)
  {
    hide ReadExactly, ReadTarget, EncodeTarget;
    m := Message(offered, user, pass, 0, 0, Target(Name([]), 0));
    ExactlySound(input, 4);
    var req := ReadExactly(input, 4);
    if req.Got? {
      TargetSound(req.rest, req.value[3]);
      var target := ReadTarget(req.rest, req.value[3]);
      if req.value[1] == CONNECT && target.Got? {
        m := Message(offered, user, pass, req.value[0], req.value[2], target.value);
        var head := [m.version, CONNECT, m.reserved, AddressType(m.target.host)];
        assert req.value == head;
        assert head + (EncodeTarget(m.target) + target.rest) == head + EncodeTarget(m.target) + target.rest;
      }
    }
  }

  /** Soundness: a handshake is recorded only for a stream that begins with an
      acceptable handshake carrying the recorded values: a version 5 greeting,
      the exact configured credentials whenever a user is configured, CONNECT. */
  lemma RecordedOnlyIf(cfg: Config, dials: Target -> bool, input: seq<byte>) returns (m: Message)
    requires Serve(cfg, dials, input).recorded.Some?
    ensures Acceptable(cfg, m)
    ensures input == Encode(cfg, m) + Serve(cfg, dials, input).unread
    ensures Serve(cfg, dials, input).recorded.value == HandshakeOf(cfg, m)
  {
    hide ServeRequest, ReadCredentials, EncodeCredentials, EncodeRequest, EncodeGreeting, ReadGreeting;
    GreetingSound(input);
    var Got(offered, rest) := ReadGreeting(input);
    var unread := Serve(cfg, dials, input).unread;
    if cfg.user == [] {
      m := RequestSound(dials, offered, NO_AUTH, [], [], [VERSION, NO_AUTH], rest);
      assert EncodeGreeting(offered) + ([] + EncodeRequest(m)) + unread
          == EncodeGreeting(offered) + (EncodeRequest(m) + unread);
    } else {
      CredentialsSound(rest);
      var Got((user, pass), rest') := ReadCredentials(rest);
      m := RequestSound(dials, offered, USER_PASS, user, pass, [VERSION, USER_PASS, AUTH_VERSION, AUTH_SUCCESS], rest');
      var auth, request := EncodeCredentials(user, pass), EncodeRequest(m);
      assert EncodeGreeting(offered) + (auth + request) + unread
          == EncodeGreeting(offered) + (auth + (request + unread));
    }
  }

  /** No proper prefix of an acceptable handshake records anything. */
  lemma ProperPrefixRecordsNothing(cfg: Config, dials: Target -> bool, m: Message, n: nat)
    requires Acceptable(cfg, m) && n < |Encode(cfg, m)|
    ensures Serve(cfg, dials, Encode(cfg, m)[..n]).recorded == None
  {
    hide Serve, Encode, Acceptable;
    var whole := Encode(cfg, m);
    var s := Serve(cfg, dials, whole[..n]);
    RoundTrip(cfg, dials, m, []);
    assert whole + [] == whole;
    if s.recorded.Some? {
      var m' := RecordedOnlyIf(cfg, dials, whole[..n]);
      assert whole == Encode(cfg, m') + (s.unread + whole[n..]);
      RoundTrip(cfg, dials, m', s.unread + whole[n..]);
      assert false;
    }
  }

  /** The answers of a connection: a method reply, then when credentials were
      asked for an authentication reply, then one ten-byte reply. */
  lemma RepliesShape(cfg: Config, dials: Target -> bool, input: seq<byte>)
    ensures var r := Serve(cfg, dials, input).replies;
            || r == []
            || r == [VERSION, NO_METHOD] || r == [VERSION, Selected(cfg)]
            || (cfg.user != [] && r == [VERSION, USER_PASS, AUTH_VERSION, AUTH_FAILURE])
            || (cfg.user != [] && r == [VERSION, USER_PASS, AUTH_VERSION, AUTH_SUCCESS])
            || exists rep: byte ::
                 r == (if cfg.user == [] then [VERSION, NO_AUTH]
                       else [VERSION, USER_PASS, AUTH_VERSION, AUTH_SUCCESS]) + ReplyBytes(rep)
  {
    hide ReadExactly, ReadGreeting, ReadCredentials, ReadTarget;
  }

  /** The success reply is given exactly for a recorded handshake whose target can be reached. */
  lemma SuccessReplyExactly(cfg: Config, dials: Target -> bool, input: seq<byte>)
    ensures var s := Serve(cfg, dials, input);
            |s.replies| >= 10 && s.replies[|s.replies| - 9] == REP_SUCCESS
            <==> s.recorded.Some? && dials(s.recorded.value.target)
  {
    hide ReadExactly, ReadGreeting, ReadCredentials, ReadTarget, ReplyBytes;
  }

  /** What a client sends before its request, and how the server answers it. */
  function EncodeOpening(cfg: Config, offered: seq<byte>): seq<byte>
    requires |offered| <= 255 && |cfg.user| <= 255 && |cfg.pass| <= 255
  {
    EncodeGreeting(offered) + if cfg.user == [] then [] else EncodeCredentials(cfg.user, cfg.pass)
  }

  function OpeningReplies(cfg: Config): seq<byte> {
    if cfg.user == [] then [VERSION, NO_AUTH] else [VERSION, USER_PASS, AUTH_VERSION, AUTH_SUCCESS]
  }

  /** A request whose address part is one of RFC 1928 section 5. */
  ghost predicate HasTarget(rest: seq<byte>, atyp: byte, t: Target) {
    && WellFormedAddress(t.host) && 0 <= t.port < 0x1_0000 && AddressType(t.host) == atyp
    && EncodeTarget(t) <= rest
  }

  lemma TargetReadExactly(rest: seq<byte>, atyp: byte)
    ensures ReadTarget(rest, atyp).Got? <==> exists t :: HasTarget(rest, atyp, t)
    ensures ReadTarget(rest, atyp).Got? ==> HasTarget(rest, atyp, ReadTarget(rest, atyp).value)
    ensures forall t :: HasTarget(rest, atyp, t) ==> ReadTarget(rest, atyp).Got? && ReadTarget(rest, atyp).value == t
  {
    hide ReadTarget, EncodeTarget;
    TargetSound(rest, atyp);
    var r := ReadTarget(rest, atyp);
    if r.Got? {
      assert rest[..|EncodeTarget(r.value)|] == EncodeTarget(r.value);
      assert HasTarget(rest, atyp, r.value);
    }
    forall t | HasTarget(rest, atyp, t) ensures ReadTarget(rest, atyp).Got? && ReadTarget(rest, atyp).value == t {
      var n := |EncodeTarget(t)|;
      assert rest == EncodeTarget(t) + rest[n..];
      TargetRoundTrip(t, rest[n..]);
    }
  }

  /** The last reply, for every request after an accepted opening: 0x07 for a
      command other than CONNECT, 0x08 for an address that is not one, 0x05 or
      0x00 for a target that cannot or can be reached. */
  lemma RequestReplies(cfg: Config, dials: Target -> bool, offered: seq<byte>, request: seq<byte>)
    requires |offered| <= 255 && |cfg.user| <= 255 && |cfg.pass| <= 255
    requires cfg.user != [] ==> USER_PASS in offered
    ensures var replies := Serve(cfg, dials, EncodeOpening(cfg, offered) + request).replies;
            var opening := OpeningReplies(cfg);
            && (|request| < 4 ==> replies == opening)
            && (|request| >= 4 && request[1] != CONNECT ==> replies == opening + ReplyBytes(REP_COMMAND))
            && (|request| >= 4 && request[1] == CONNECT ==>
                  && ((forall t :: !HasTarget(request[4..], request[3], t)) ==>
                        replies == opening + ReplyBytes(REP_ADDRESS))
                  && forall t :: HasTarget(request[4..], request[3], t) ==>
                       replies == opening + ReplyBytes(if dials(t) then REP_SUCCESS else REP_REFUSED))
  {
    hide ReadGreeting, ReadCredentials, ReadTarget, EncodeGreeting, EncodeCredentials, HasTarget, ReplyBytes;
    var auth := if cfg.user == [] then [] else EncodeCredentials(cfg.user, cfg.pass);
    assert EncodeOpening(cfg, offered) + request == EncodeGreeting(offered) + (auth + request);
    GreetingRoundTrip(offered, auth + request);
    if cfg.user == [] {
      assert auth + request == request;
    } else {
      CredentialsRoundTrip(cfg.user, cfg.pass, request);
    }
    if |request| >= 4 { TargetReadExactly(request[4..], request[3]); }
  }

  /** A handshake is recorded only after the selected method and, when a user is
      configured, the successful authentication were answered. */
  lemma RecordedAfterReplies(cfg: Config, dials: Target -> bool, input: seq<byte>)
    requires Serve(cfg, dials, input).recorded.Some?
    ensures var s := Serve(cfg, dials, input);
            s.before <= |s.replies| &&
            s.replies[..s.before] == if cfg.user == [] then [VERSION, NO_AUTH]
                                     else [VERSION, USER_PASS, AUTH_VERSION, AUTH_SUCCESS]
  {
    hide ReadExactly, ReadGreeting, ReadCredentials, ReadTarget;
  }

  /** The selected method was among the offered ones if and only if credentials
      are required or the client happened to offer no authentication: without a
      configured user the server selects 0x00 unseen, where section 3 of RFC 1928
      asks for an offered method. */
  lemma SelectedWasOffered(cfg: Config, dials: Target -> bool, input: seq<byte>)
    requires Serve(cfg, dials, input).recorded.Some?
    ensures var h := Serve(cfg, dials, input).recorded.value;
            h.selected in h.offered <==> cfg.user != [] || NO_AUTH in h.offered
  {
    hide ReadExactly, ReadGreeting, ReadCredentials, ReadTarget;
  }

  /** A client that offers only GSSAPI (0x01) is told that 0x00 was selected. */
  lemma UnofferedMethodExample(dials: Target -> bool)
    ensures Serve(Config([], []), dials, [VERSION, 1, 1]).replies == [VERSION, NO_AUTH]
  {
    hide ReadExactly, ReadTarget;
    GreetingRoundTrip([1], []);
    assert EncodeGreeting([1]) + [] == [VERSION, 1, 1];
    NothingLeft();
  }

  lemma NothingLeft()
    ensures ReadExactly([], 4) == Short
  {
  }

  // ----- The connection handler -----

  /** One end of a connection: what the client will still send before it stops,
      what was delivered to it, and how much more it will accept. */
  class Conn {
    var input: seq<byte>
    var output: seq<byte>
    var room: nat

    constructor (input: seq<byte>, room: nat)
      ensures this.input == input && this.room == room && output == []
    {
      this.input, this.room, output := input, room, [];
    }

    /** io.ReadFull: all n bytes, or an error after reading what there is. */
    method ReadFull(n: nat) returns (r: Option<seq<byte>>)
      modifies this`input
      ensures r == (match ReadExactly(old(input), n) case Got(b, _) => Some(b) case Short => None)
      ensures input == (match ReadExactly(old(input), n) case Got(_, rest) => rest case Short => [])
    {
      if n <= |input| {
        r := Some(input[..n]);
        input := input[n..];
      } else {
        r := None;
        input := [];
      }
    }

    method Write(b: seq<byte>) returns (ok: bool)
      modifies this`output, this`room
      ensures ok <==> |b| <= old(room)
      ensures output == old(output) + First(b, old(room))
      ensures room == old(room) - |First(b, old(room))|
    {
      ok := |b| <= room;
      var n := if ok then |b| else room;
      output := output + b[..n];
      room := room - n;
    }
  }

  lemma FirstOfTwo(a: seq<byte>, b: seq<byte>, room: nat)
    requires |a| <= room
    ensures First(a + b, room) == a + First(b, room - |a|)
  {
  }

  method ReadLengthPrefixed(c: Conn) returns (r: Option<seq<byte>>)
    modifies c`input
    ensures r == (match ReadPrefixed(old(c.input)) case Got(b, _) => Some(b) case Short => None)
    ensures ReadPrefixed(old(c.input)).Got? ==> c.input == ReadPrefixed(old(c.input)).rest
  {
    var len := c.ReadFull(1);
    if len.None? {
      return None;
    }
    r := c.ReadFull(len.value[0]);
  }

  method ReadSocksPort(c: Conn) returns (r: Option<int>)
    modifies c`input
    ensures r == (match ReadPort(old(c.input)) case Got(p, _) => Some(p) case Short => None)
    ensures ReadPort(old(c.input)).Got? ==> c.input == ReadPort(old(c.input)).rest
  {
    var b := c.ReadFull(2);
    if b.None? {
      return None;
    }
    r := Some(BigEndian(b.value[0], b.value[1]));
  }

  method ReadUserPassAuth(c: Conn) returns (r: Option<(seq<byte>, seq<byte>)>)
    modifies c`input
    ensures r == (match ReadCredentials(old(c.input)) case Got(up, _) => Some(up) case Short => None)
    ensures ReadCredentials(old(c.input)).Got? ==> c.input == ReadCredentials(old(c.input)).rest
  {
    hide ReadPrefixed;
    var ver := c.ReadFull(1);
    if ver.None? || ver.value[0] != AUTH_VERSION {
      return None;
    }
    var user := ReadLengthPrefixed(c);
    if user.None? {
      return None;
    }
    var pass := ReadLengthPrefixed(c);
    if pass.None? {
      return None;
    }
    r := Some((user.value, pass.value));
  }

  method ReadSocksAddress(c: Conn, atyp: byte) returns (r: Option<Target>)
    modifies c`input
    ensures r == (match ReadTarget(old(c.input), atyp) case Got(t, _) => Some(t) case Short => None)
    ensures ReadTarget(old(c.input), atyp).Got? ==> c.input == ReadTarget(old(c.input), atyp).rest
  {
    hide ReadPrefixed, ReadPort;
    var host;
    if atyp == ATYP_IPV4 {
      var ip := c.ReadFull(4);
      if ip.None? { return None; }
      host := IPv4(ip.value);
    } else if atyp == ATYP_IPV6 {
      var ip := c.ReadFull(16);
      if ip.None? { return None; }
      host := IPv6(ip.value);
    } else if atyp == ATYP_NAME {
      var name := ReadLengthPrefixed(c);
      if name.None? { return None; }
      host := Name(name.value);
    } else {
      return None;
    }
    var port := ReadSocksPort(c);
    if port.None? {
      return None;
    }
    r := Some(Target(host, port.value));
  }

  class Recorder {
    var handshakes: seq<Handshake>
    var tunnels: seq<Target>

    constructor ()
      ensures handshakes == [] && tunnels == []
    {
      handshakes, tunnels := [], [];
    }

    method AddHandshake(h: Handshake)
      modifies this`handshakes
      ensures handshakes == old(handshakes) + [h]
    {
      handshakes := handshakes + [h];
    }

    method StartTunnel(t: Target)
      modifies this`tunnels
      ensures tunnels == old(tunnels) + [t]
    {
      tunnels := tunnels + [t];
    }
  }

  method ReadOfferedMethods(c: Conn) returns (r: Option<seq<byte>>)
    modifies c`input
    ensures r == (match ReadGreeting(old(c.input)) case Got(m, _) => Some(m) case Short => None)
    ensures ReadGreeting(old(c.input)).Got? ==> c.input == ReadGreeting(old(c.input)).rest
  {
    var header := c.ReadFull(2);
    if header.None? || header.value[0] != VERSION {
      return None;
    }
    r := c.ReadFull(header.value[1]);
  }

  /** The request of a connection that `written` was answered on. */
  method HandleRequest(dials: Target -> bool, c: Conn, rec: Recorder, offered: seq<byte>, selected: byte,
                       user: seq<byte>, pass: seq<byte>, ghost written: seq<byte>, ghost before: seq<byte>)
    returns (spliced: bool)
    requires c.output == before + written
    modifies c, rec
    ensures var s := ServeRequest(dials, offered, selected, user, pass, written, old(c.input));
            var tunnel := s.recorded.Some? && dials(s.recorded.value.target);
            && written <= s.replies
            && c.output == before + (written + First(s.replies[|written|..], old(c.room)))
            && rec.handshakes == old(rec.handshakes) + (if s.recorded.Some? then [s.recorded.value] else [])
            && rec.tunnels == old(rec.tunnels) + (if tunnel then [s.recorded.value.target] else [])
            && (spliced <==> tunnel && |s.replies| - |written| <= old(c.room))
            && (spliced ==> c.input == s.unread)
  {
    hide ReadTarget, ReplyBytes, First;
    spliced := false;
    Append(written);
    var req := c.ReadFull(4);
    if req.None? {
      return;
    }
    if req.value[1] != CONNECT {
      var _ := c.Write(ReplyBytes(REP_COMMAND));
      return;
    }
    var target := ReadSocksAddress(c, req.value[3]);
    if target.None? {
      var _ := c.Write(ReplyBytes(REP_ADDRESS));
      return;
    }
    rec.AddHandshake(Handshake(VERSION, offered, selected, user, pass, target.value));
    if !dials(target.value) {
      var _ := c.Write(ReplyBytes(REP_REFUSED));
      return;
    }
    rec.StartTunnel(target.value);
    spliced := c.Write(ReplyBytes(REP_SUCCESS));
  }

  lemma Append(a: seq<byte>)
    ensures forall b: seq<byte> :: (a + b)[|a|..] == b
    ensures a[|a|..] == []
    ensures forall room :: First<byte>([], room) == []
  {
  }

  lemma RequestScript(dials: Target -> bool, offered: seq<byte>, selected: byte, user: seq<byte>, pass: seq<byte>,
                      written: seq<byte>, input: seq<byte>, room: nat)
    ensures var s := ServeRequest(dials, offered, selected, user, pass, written, input);
            && written <= s.replies
            && (s.recorded.Some? ==> s.before == |written|)
            && (room < |written| ==> First(s.replies, room) == First(written, room))
            && (room >= |written| ==>
                  First(s.replies, room) == written + First(s.replies[|written|..], room - |written|))
  {
  }

  /** The RFC 1929 part of a connection, after the method reply was delivered. */
  method Authenticate(cfg: Config, ghost dials: Target -> bool, c: Conn,
                      ghost input: seq<byte>, ghost before: seq<byte>)
    returns (up: Option<(seq<byte>, seq<byte>)>)
    requires cfg.user != [] && ReadGreeting(input).Got? && USER_PASS in ReadGreeting(input).value
    requires c.input == ReadGreeting(input).rest && c.output == before + [VERSION, USER_PASS]
    modifies c
    ensures var s := Serve(cfg, dials, input);
            var room := old(c.room) + 2;
            match up
            case None =>
              && c.output == before + First(s.replies, room)
              && !(s.recorded.Some? && s.before <= room)
            case Some((user, pass)) =>
              && c.output == before + [VERSION, USER_PASS, AUTH_VERSION, AUTH_SUCCESS]
              && c.room == room - 4 && room >= 4
              && s == ServeRequest(dials, ReadGreeting(input).value, USER_PASS, user, pass,
                                   [VERSION, USER_PASS, AUTH_VERSION, AUTH_SUCCESS], c.input)
  {
    hide ReadGreeting, ReadCredentials, ServeRequest, Serve, First;
    ghost var room := c.room + 2;
    CredentialsRead(cfg, dials, input, room);
    TwoReplies(before, [AUTH_VERSION, AUTH_FAILURE], room);
    TwoReplies(before, [AUTH_VERSION, AUTH_SUCCESS], room);
    assert [VERSION, USER_PASS] + [AUTH_VERSION, AUTH_SUCCESS] == [VERSION, USER_PASS, AUTH_VERSION, AUTH_SUCCESS];
    up := ReadUserPassAuth(c);
    if up.None? {
      return;
    }
    var (user, pass) := up.value;
    if user != cfg.user || pass != cfg.pass {
      var _ := c.Write([AUTH_VERSION, AUTH_FAILURE]);
      return None;
    }
    var ok := c.Write([AUTH_VERSION, AUTH_SUCCESS]);
    if !ok {
      return None;
    }
  }

  lemma TwoReplies(before: seq<byte>, second: seq<byte>, room: nat)
    requires room >= 2
    ensures (before + [VERSION, USER_PASS]) + First(second, room - 2)
            == before + First([VERSION, USER_PASS] + second, room)
    ensures First([VERSION, USER_PASS], room) == [VERSION, USER_PASS]
  {
    hide First;
    FirstOfTwo([VERSION, USER_PASS], second, room);
  }

  /** handleConn up to the splice: the delivered answers are a prefix of the
      script's, and a handshake is recorded only once the method and
      authentication replies before it were delivered. */
  method HandleConn(cfg: Config, dials: Target -> bool, c: Conn, rec: Recorder) returns (spliced: bool)
    modifies c, rec
    ensures var s := Serve(cfg, dials, old(c.input));
            var recorded := s.recorded.Some? && s.before <= old(c.room);
            var tunnel := recorded && dials(s.recorded.value.target);
            && c.output == old(c.output) + First(s.replies, old(c.room))
            && rec.handshakes == old(rec.handshakes) + (if recorded then [s.recorded.value] else [])
            && rec.tunnels == old(rec.tunnels) + (if tunnel then [s.recorded.value.target] else [])
            && (spliced <==> tunnel && |s.replies| <= old(c.room))
            && (spliced ==> c.input == s.unread)
  {
    hide ReadGreeting, ReadCredentials, ServeRequest, Serve, First;
    spliced := false;
    ghost var input, room, output := c.input, c.room, c.output;
    var offered := ReadOfferedMethods(c);
    if offered.None? {
      NoMethodAgreed(cfg, dials, input, room);
      return;
    }
    var selected := NO_AUTH;
    if cfg.user != [] {
      if USER_PASS !in offered.value {
        NoMethodAgreed(cfg, dials, input, room);
        var _ := c.Write([VERSION, NO_METHOD]);
        return;
      }
      selected := USER_PASS;
    }
    ghost var written := [VERSION, selected];
    MethodAgreed(cfg, dials, input, room);
    var ok := c.Write([VERSION, selected]);
    if !ok {
      return;
    }
    var user, pass := [], [];
    if selected == USER_PASS {
      CredentialsRead(cfg, dials, input, room);
      var up := Authenticate(cfg, dials, c, input, output);
      if up.None? {
        return;
      }
      user, pass := up.value.0, up.value.1;
      written := [VERSION, USER_PASS, AUTH_VERSION, AUTH_SUCCESS];
      assert [VERSION, USER_PASS] + [AUTH_VERSION, AUTH_SUCCESS] == written;
    }
    RequestScript(dials, offered.value, selected, user, pass, written, c.input, room);
    spliced := HandleRequest(dials, c, rec, offered.value, selected, user, pass, written, output);
  }

  lemma NoMethodAgreed(cfg: Config, dials: Target -> bool, input: seq<byte>, room: nat)
    ensures var greeting := ReadGreeting(input);
            && (greeting.Short? ==>
                  First(Serve(cfg, dials, input).replies, room) == [] && Serve(cfg, dials, input).recorded == None)
            && (greeting.Got? && cfg.user != [] && USER_PASS !in greeting.value ==>
                  Serve(cfg, dials, input).replies == [VERSION, NO_METHOD] && Serve(cfg, dials, input).recorded == None)
  {
  }

  /** Once a method is agreed, its reply comes first and must be delivered. */
  lemma MethodAgreed(cfg: Config, dials: Target -> bool, input: seq<byte>, room: nat)
    requires ReadGreeting(input).Got? && (cfg.user != [] ==> USER_PASS in ReadGreeting(input).value)
    ensures var s := Serve(cfg, dials, input);
            var greeting := ReadGreeting(input);
            var reply := [VERSION, Selected(cfg)];
            && (cfg.user == [] ==> s == ServeRequest(dials, greeting.value, NO_AUTH, [], [], reply, greeting.rest))
            && (room < 2 ==> First(s.replies, room) == First(reply, room)
                             && (s.recorded.Some? ==> s.before > room) && |s.replies| > room)
  {
    hide ReadGreeting, ReadCredentials, ServeRequest;
    var greeting := ReadGreeting(input);
    if cfg.user == [] {
      RequestScript(dials, greeting.value, NO_AUTH, [], [], [VERSION, NO_AUTH], greeting.rest, room);
    } else {
      CredentialsRead(cfg, dials, input, room);
    }
  }

  /** The authentication part of a connection whose server requires credentials. */
  lemma CredentialsRead(cfg: Config, dials: Target -> bool, input: seq<byte>, room: nat)
    requires cfg.user != [] && ReadGreeting(input).Got? && USER_PASS in ReadGreeting(input).value
    ensures var s := Serve(cfg, dials, input);
            var written := [VERSION, USER_PASS, AUTH_VERSION, AUTH_SUCCESS];
            match ReadCredentials(ReadGreeting(input).rest)
            case Short => s.replies == [VERSION, USER_PASS] && s.recorded == None
            case Got((user, pass), rest) =>
              if user != cfg.user || pass != cfg.pass
              then s.replies == [VERSION, USER_PASS] + [AUTH_VERSION, AUTH_FAILURE] && s.recorded == None
              else
                && s == ServeRequest(dials, ReadGreeting(input).value, USER_PASS, user, pass, written, rest)
                && (room < 4 ==> First(s.replies, room) == First(written, room)
                                 && (s.recorded.Some? ==> s.before > room) && |s.replies| > room)
    ensures |Serve(cfg, dials, input).replies| >= 2 && Serve(cfg, dials, input).replies[..2] == [VERSION, USER_PASS]
    ensures Serve(cfg, dials, input).recorded.Some? ==> Serve(cfg, dials, input).before >= 2
  {
    hide ReadGreeting, ReadCredentials, ServeRequest, First;
    var greeting := ReadGreeting(input);
    var written := [VERSION, USER_PASS, AUTH_VERSION, AUTH_SUCCESS];
    match ReadCredentials(greeting.rest)
    case Short =>
    case Got((user, pass), rest) =>
      if user == cfg.user && pass == cfg.pass {
        RequestScript(dials, greeting.value, USER_PASS, user, pass, written, rest, room);
        assert Serve(cfg, dials, input).replies[..4] == written;
        assert written[..2] == [VERSION, USER_PASS];
      }
  }
}
