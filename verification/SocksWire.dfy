/** The bytes of the SOCKS5 handshake on the wire, with the numbers of sections
    3 to 6 of RFC 1928 and section 2 of RFC 1929 written out, and what the server
    answers to every such stream. */
module SocksWire {
  import opened Socks
  import Wrappers

  predicate Configured(cfg: Config, methods: seq<byte>) {
    |methods| <= 255 && |cfg.user| <= 255 && |cfg.pass| <= 255
  }

  /** What a client with the right credentials sends before its request. */
  function Opening(cfg: Config, methods: seq<byte>): seq<byte>
    requires Configured(cfg, methods)
  {
    [5, |methods|] + methods
    + if cfg.user == [] then [] else [1, |cfg.user|] + cfg.user + [|cfg.pass|] + cfg.pass
  }

  function Answers(cfg: Config): seq<byte> {
    if cfg.user == [] then [5, 0] else [5, 2, 1, 0]
  }

  function Reply(code: byte): seq<byte> {
    [5, code, 0, 1, 0, 0, 0, 0, 0, 0]
  }

  /** An address of the announced type and a port are all there. */
  predicate Complete(atyp: byte, rest: seq<byte>) {
    || (atyp == 1 && |rest| >= 6)
    || (atyp == 3 && |rest| >= 1 && |rest| >= rest[0] as int + 3)
    || (atyp == 4 && |rest| >= 18)
  }

  function Length(atyp: byte, rest: seq<byte>): nat
    requires Complete(atyp, rest)
  {
    if atyp == 1 then 6 else if atyp == 4 then 18 else rest[0] as int + 3
  }

  /** The target that the bytes name, by position. */
  function Named(atyp: byte, rest: seq<byte>): Target
    requires Complete(atyp, rest)
  {
    var n := Length(atyp, rest) - 2;
    var port := 256 * (rest[n] as int) + rest[n + 1] as int;
    if atyp == 1 then Target(IPv4(rest[..4]), port)
    else if atyp == 4 then Target(IPv6(rest[..16]), port)
    else Target(Name(rest[1..n]), port)
  }

  /** Reading a target step by step is looking it up by position. */
  lemma TargetByPosition(atyp: byte, rest: seq<byte>)
    ensures ReadTarget(rest, atyp) ==
            if Complete(atyp, rest) then Got(Named(atyp, rest), rest[Length(atyp, rest)..]) else Short
  {
    hide ReadPort;
    if atyp == 3 {
      NameByPosition(rest);
    } else if atyp == 1 && |rest| >= 4 {
      PortByPosition(rest, 4);
    } else if atyp == 4 && |rest| >= 16 {
      PortByPosition(rest, 16);
    }
  }

  lemma NameByPosition(rest: seq<byte>)
    ensures ReadTarget(rest, 3) ==
            if Complete(3, rest) then Got(Named(3, rest), rest[Length(3, rest)..]) else Short
  {
    hide ReadPort;
    if |rest| >= 1 && |rest| >= 1 + rest[0] as int {
      var n := rest[0] as int;
      assert rest[1..][..n] == rest[1..1 + n] && rest[1..][n..] == rest[1 + n..];
      PortByPosition(rest, 1 + n);
    }
  }

  lemma PortByPosition(rest: seq<byte>, n: nat)
    requires n <= |rest|
    ensures ReadPort(rest[n..]) ==
            if |rest| < n + 2 then Socks.Short else Got(256 * (rest[n] as int) + rest[n + 1] as int, rest[n + 2..])
  {
    if |rest| >= n + 2 { assert rest[n..][..2] == [rest[n], rest[n + 1]]; }
  }

  lemma OpeningIs(cfg: Config, methods: seq<byte>)
    requires Configured(cfg, methods)
    ensures Opening(cfg, methods) == EncodeOpening(cfg, methods)
    ensures Answers(cfg) == OpeningReplies(cfg)
  {
    if cfg.user != [] {
      assert [1, |cfg.user|] + cfg.user + [|cfg.pass|] + cfg.pass == EncodeCredentials(cfg.user, cfg.pass);
    }
  }

  lemma ReplyIs(code: byte)
    ensures ReplyBytes(code) == Reply(code)
  {
  }

  /** How a request is to be served, byte by byte: only command 1 with a complete
      address of type 1, 3 or 4 is recorded, with the values at its positions;
      the answer is one ten-byte reply with code 7, 8, 5 or 0. */
  ghost predicate ServedAs(s: Script, cfg: Config, dials: Target -> bool, methods: seq<byte>,
                           command: byte, atyp: byte, rest: seq<byte>)
  {
    if command != 1 then s.recorded.None? && s.replies == Answers(cfg) + Reply(7)
    else if !Complete(atyp, rest) then s.recorded.None? && s.replies == Answers(cfg) + Reply(8)
    else
      var t := Named(atyp, rest);
      && s.recorded == Wrappers.Some(if cfg.user == [] then Handshake(5, methods, 0, [], [], t)
                                     else Handshake(5, methods, 2, cfg.user, cfg.pass, t))
      && s.before == |Answers(cfg)|
      && s.replies == Answers(cfg) + Reply(if dials(t) then 0 else 5)
      && s.unread == rest[Length(atyp, rest)..]
  }

  /** Every request after an accepted opening is served so. */
  lemma RequestOnWire(cfg: Config, dials: Target -> bool, methods: seq<byte>,
                      version: byte, command: byte, reserved: byte, atyp: byte, rest: seq<byte>)
    requires Configured(cfg, methods) && (cfg.user != [] ==> 2 in methods)
    ensures ServedAs(Serve(cfg, dials, Opening(cfg, methods) + ([version, command, reserved, atyp] + rest)),
                     cfg, dials, methods, command, atyp, rest)
  {
    hide ReadTarget, Opening, Answers, Complete, Named, Length, Reply, ServeRequest;
    ServeOpening(cfg, dials, methods, [version, command, reserved, atyp] + rest);
    RequestByPosition(dials, methods, if cfg.user == [] then 0 else 2, if cfg.user == [] then [] else cfg.user,
                      if cfg.user == [] then [] else cfg.pass, Answers(cfg), version, command, reserved, atyp, rest);
  }

  lemma ServeOpening(cfg: Config, dials: Target -> bool, methods: seq<byte>, request: seq<byte>)
    requires Configured(cfg, methods) && (cfg.user != [] ==> 2 in methods)
    ensures Serve(cfg, dials, Opening(cfg, methods) + request) ==
            if cfg.user == [] then ServeRequest(dials, methods, 0, [], [], Answers(cfg), request)
            else ServeRequest(dials, methods, 2, cfg.user, cfg.pass, Answers(cfg), request)
  {
    hide ReadGreeting, ReadCredentials, EncodeGreeting, EncodeCredentials, ServeRequest, Opening;
    OpeningIs(cfg, methods);
    var auth := if cfg.user == [] then [] else EncodeCredentials(cfg.user, cfg.pass);
    assert EncodeOpening(cfg, methods) + request == EncodeGreeting(methods) + (auth + request);
    GreetingRoundTrip(methods, auth + request);
    if cfg.user == [] {
      assert auth + request == request;
    } else {
      CredentialsRoundTrip(cfg.user, cfg.pass, request);
    }
  }

  lemma RequestByPosition(dials: Target -> bool, methods: seq<byte>, selected: byte, user: seq<byte>, pass: seq<byte>,
                          written: seq<byte>, version: byte, command: byte, reserved: byte, atyp: byte, rest: seq<byte>)
    ensures ServeRequest(dials, methods, selected, user, pass, written, [version, command, reserved, atyp] + rest) ==
            if command != 1 then Script(written + Reply(7), Wrappers.None, 0, rest)
            else if !Complete(atyp, rest) then Script(written + Reply(8), Wrappers.None, 0, [])
            else
              var t := Named(atyp, rest);
              Script(written + Reply(if dials(t) then 0 else 5),
                     Wrappers.Some(Handshake(5, methods, selected, user, pass, t)), |written|,
                     rest[Length(atyp, rest)..])
  {
    hide ReadTarget, Complete, Named, Length, Reply, ReplyBytes, ReadExactly;
    ExactlyRoundTrip([version, command, reserved, atyp], rest);
    TargetByPosition(atyp, rest);
    ReplyIs(7);
    ReplyIs(8);
    ReplyIs(5);
    ReplyIs(0);
  }

  /** The openings that end a connection: another version than 5, or a greeting
      cut short, gets no answer; no username method where one is needed gets
      0xFF; a subnegotiation of another version than 1 gets nothing more; and
      other credentials than the configured ones get status 1. */
  lemma RefusedOpenings(cfg: Config, dials: Target -> bool, first: byte, rest: seq<byte>, methods: seq<byte>)
    requires |methods| <= 255
    ensures first != 5 || rest == [] || |rest| < 1 + rest[0] as int ==>
              Serve(cfg, dials, [first] + rest).replies == [] && Serve(cfg, dials, [first] + rest).recorded.None?
    ensures cfg.user != [] && 2 !in methods ==>
              var s := Serve(cfg, dials, [5, |methods|] + methods + rest);
              s.replies == [5, 255] && s.recorded.None?
    ensures cfg.user != [] && 2 in methods && first != 1 ==>
              var s := Serve(cfg, dials, [5, |methods|] + methods + ([first] + rest));
              s.replies == [5, 2] && s.recorded.None?
  {
    hide ServeRequest, ReadGreeting, ReadCredentials, EncodeGreeting;
    CutGreeting(first, rest);
    GreetingIs(methods, rest);
    GreetingIs(methods, [first] + rest);
    OtherVersion(first, rest);
  }

  lemma CutGreeting(first: byte, rest: seq<byte>)
    ensures first != 5 || rest == [] || |rest| < 1 + rest[0] as int ==> ReadGreeting([first] + rest).Short?
  {
    var input := [first] + rest;
    if rest != [] { assert input[0] == first && input[1] == rest[0]; }
  }

  lemma GreetingIs(methods: seq<byte>, rest: seq<byte>)
    requires |methods| <= 255
    ensures ReadGreeting([5, |methods|] + methods + rest) == Got(methods, rest)
  {
    GreetingRoundTrip(methods, rest);
  }

  lemma OtherVersion(first: byte, rest: seq<byte>)
    ensures first != 1 ==> ReadCredentials([first] + rest).Short?
  {
  }

  /** Credentials are compared as they are: any others of up to 255 bytes get status 1. */
  lemma OtherCredentials(cfg: Config, dials: Target -> bool, methods: seq<byte>, user: seq<byte>, pass: seq<byte>,
                         rest: seq<byte>)
    requires |methods| <= 255 && |user| <= 255 && |pass| <= 255
    requires cfg.user != [] && 2 in methods && (user != cfg.user || pass != cfg.pass)
    ensures var auth := [1, |user|] + user + [|pass|] + pass;
            var s := Serve(cfg, dials, [5, |methods|] + methods + (auth + rest));
            s.replies == [5, 2, 1, 1] && s.recorded.None? && s.unread == rest
  {
    hide ServeRequest, ReadGreeting, ReadCredentials, EncodeGreeting;
    var auth := [1, |user|] + user + [|pass|] + pass;
    GreetingIs(methods, auth + rest);
    assert auth == EncodeCredentials(user, pass);
    CredentialsRoundTrip(user, pass, rest);
  }

  /** The address of a request as its type byte and its bytes. */
  function Wire(a: Address): seq<byte>
    requires WellFormedAddress(a)
  {
    match a case IPv4(b) => [1] + b case IPv6(b) => [4] + b case Name(b) => [3, |b|] + b
  }

  /** The handshake that the round trip starts from, byte by byte. */
  lemma MessageOnWire(cfg: Config, m: Message)
    requires Acceptable(cfg, m)
    ensures Encode(cfg, m) ==
            (if cfg.user == [] then [5, |m.offered|] + m.offered
             else [5, |m.offered|] + m.offered + [1, |m.user|] + m.user + [|m.pass|] + m.pass)
            + [m.version, 1, m.reserved] + Wire(m.target.host) + [m.target.port / 256, m.target.port % 256]
  {
    assert EncodeRequest(m) ==
           [m.version, 1, m.reserved] + Wire(m.target.host) + [m.target.port / 256, m.target.port % 256] by {
      RequestWire(m);
    }
    hide EncodeRequest, Wire;
    if cfg.user != [] {
      assert EncodeCredentials(m.user, m.pass) == [1, |m.user|] + m.user + [|m.pass|] + m.pass;
    }
  }

  lemma RequestWire(m: Message)
    requires WellFormedAddress(m.target.host) && 0 <= m.target.port < 0x1_0000
    ensures EncodeRequest(m) ==
            [m.version, 1, m.reserved] + Wire(m.target.host) + [m.target.port / 256, m.target.port % 256]
  {
    var head := [m.version, 1, m.reserved];
    assert [AddressType(m.target.host)] + EncodeHost(m.target.host) == Wire(m.target.host);
    assert EncodeRequest(m) ==
           head + ([AddressType(m.target.host)] + EncodeHost(m.target.host)) + EncodePort(m.target.port);
  }
}
