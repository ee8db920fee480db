/** Album assembly of files.go: the reference checks, the media entries, and
    the multipart parts the entries refer to. */
module MediaGroup {
  import opened Wrappers
  import opened Text

  const PHOTO := "photo"
  const VIDEO := "video"
  const MAX_CAPTION := 1024
  const ATTACH := "attach://"

  datatype MediaItem = MediaItem(kind: string, ref: string)

  datatype Options = Options(caption: string, parseMode: string, replyTo: int, silent: bool)

  datatype AlbumError = BadCount(n: nat) | CaptionTooLong | BadKind(item: nat) | Mixed(item: nat)

  predicate IsRemote(ref: string) {
    HasPrefix(ref, "http://") || HasPrefix(ref, "https://")
  }

  predicate GoodKind(kind: string) {
    kind == PHOTO || kind == VIDEO
  }

  // ----- The checks -----

  method AllRemote(items: seq<MediaItem>) returns (r: bool)
    ensures r <==> forall k :: 0 <= k < |items| ==> IsRemote(items[k].ref)
  {
    for i := 0 to |items|
      invariant forall k :: 0 <= k < i ==> IsRemote(items[k].ref)
    {
      if !IsRemote(items[i].ref) {
        return false;
      }
    }
    return true;
  }

  /** An item that fails the checks: of the wrong kind, or remote among local ones. */
  predicate Fails(item: MediaItem, remote: bool) {
    !GoodKind(item.kind) || (!remote && IsRemote(item.ref))
  }

  /** The error of the first failing item, its kind checked before its reference. */
  method ValidateMediaItems(items: seq<MediaItem>, remote: bool) returns (err: Option<AlbumError>)
    ensures err == None <==> forall k :: 0 <= k < |items| ==> !Fails(items[k], remote)
    ensures err.Some? ==>
              exists i :: 0 <= i < |items| && Fails(items[i], remote)
                          && (forall k :: 0 <= k < i ==> !Fails(items[k], remote))
                          && err.value == if GoodKind(items[i].kind) then Mixed(i) else BadKind(i)
  {
    for i := 0 to |items|
      invariant forall k :: 0 <= k < i ==> !Fails(items[k], remote)
    {
      if !GoodKind(items[i].kind) {
        return Some(BadKind(i));
      }
      if remote {
        continue;
      }
      if IsRemote(items[i].ref) {
        return Some(Mixed(i));
      }
    }
    return None;
  }

  /** The albums that are accepted: 2 to 10 photos and videos, a caption within
      its limit, and references that are all remote or none remote. */
  ghost predicate Accepted(items: seq<MediaItem>, opts: Options) {
    && 2 <= |items| <= 10
    && |opts.caption| <= MAX_CAPTION
    && (forall k :: 0 <= k < |items| ==> GoodKind(items[k].kind))
    && ((forall k :: 0 <= k < |items| ==> IsRemote(items[k].ref))
        || forall k :: 0 <= k < |items| ==> !IsRemote(items[k].ref))
  }

  predicate IsWebAddress(ref: string) {
    || (|ref| >= 7 && ref[..7] == "http://")
    || (|ref| >= 8 && ref[..8] == "https://")
  }

  /** The checks on an album of two, written out: both of them photo or video,
      both web addresses or neither, a caption of at most 1024 characters. */
  lemma PairAcceptedExactly(a: MediaItem, b: MediaItem, opts: Options)
    ensures Accepted([a, b], opts) <==>
            && |opts.caption| <= 1024
            && a.kind in {"photo", "video"} && b.kind in {"photo", "video"}
            && (IsWebAddress(a.ref) <==> IsWebAddress(b.ref))
  {
    assert IsRemote(a.ref) <==> IsWebAddress(a.ref);
    assert IsRemote(b.ref) <==> IsWebAddress(b.ref);
    var items := [a, b];
    hide IsRemote, IsWebAddress;
    assert items[0] == a && items[1] == b;
    assert (forall k :: 0 <= k < |items| ==> IsRemote(items[k].ref)) <==> IsRemote(a.ref) && IsRemote(b.ref);
    assert (forall k :: 0 <= k < |items| ==> !IsRemote(items[k].ref)) <==> !IsRemote(a.ref) && !IsRemote(b.ref);
    assert (forall k :: 0 <= k < |items| ==> GoodKind(items[k].kind)) <==> GoodKind(a.kind) && GoodKind(b.kind);
  }

  // ----- The media entries -----

  function PartName(i: nat): string {
    "file" + Decimal(i)
  }

  type Entry = map<string, string>

  /** What the i-th entry of the request must hold, key by key. */
  ghost predicate IsEntry(e: Entry, item: MediaItem, opts: Options, remote: bool, i: nat) {
    && "type" in e && e["type"] == item.kind
    && "media" in e && e["media"] == (if remote then item.ref else ATTACH + PartName(i))
    && ("caption" in e <==> i == 0 && opts.caption != "")
    && ("caption" in e ==> e["caption"] == opts.caption)
    && ("parse_mode" in e <==> i == 0 && opts.parseMode != "")
    && ("parse_mode" in e ==> e["parse_mode"] == opts.parseMode)
    && ("reply_to_message_id" in e <==> i == 0 && opts.replyTo != 0)
    && ("reply_to_message_id" in e ==> e["reply_to_message_id"] == DecimalInt(opts.replyTo))
    && ("disable_notification" in e <==> i == 0 && opts.silent)
    && ("disable_notification" in e ==> e["disable_notification"] == "true")
    && e.Keys <= {"type", "media", "caption", "parse_mode", "reply_to_message_id", "disable_notification"}
  }

  method BuildEntry(item: MediaItem, opts: Options, remote: bool, i: nat) returns (entry: Entry)
    ensures IsEntry(entry, item, opts, remote, i)
  {
    hide DecimalInt, PartName;
    var ref := item.ref;
    if !remote {
      ref := ATTACH + PartName(i);
    }
    entry := map["type" := item.kind, "media" := ref];
    if i == 0 {
      if opts.caption != "" { entry := entry["caption" := opts.caption]; }
      if opts.parseMode != "" { entry := entry["parse_mode" := opts.parseMode]; }
      if opts.replyTo != 0 { entry := entry["reply_to_message_id" := DecimalInt(opts.replyTo)]; }
      if opts.silent { entry := entry["disable_notification" := "true"]; }
    }
  }

  ghost predicate AreEntries(media: seq<Entry>, items: seq<MediaItem>, opts: Options, remote: bool) {
    |media| == |items| && forall i :: 0 <= i < |items| ==> IsEntry(media[i], items[i], opts, remote, i)
  }

  /** SendMediaGroupOpts up to the first attempt: the checks in order, then one entry per item. */
  method Prepare(items: seq<MediaItem>, opts: Options)
    returns (err: Option<AlbumError>, media: seq<Entry>, remote: bool)
    ensures err == None <==> Accepted(items, opts)
    ensures |items| < 2 || |items| > 10 ==> err == Some(BadCount(|items|))
    ensures 2 <= |items| <= 10 && |opts.caption| > MAX_CAPTION ==> err == Some(CaptionTooLong)
    ensures 2 <= |items| <= 10 && |opts.caption| <= MAX_CAPTION && err.Some? ==>
              exists i :: 0 <= i < |items| && Fails(items[i], remote)
                          && (forall k :: 0 <= k < i ==> !Fails(items[k], remote))
                          && err.value == if GoodKind(items[i].kind) then Mixed(i) else BadKind(i)
    ensures err == None ==> AreEntries(media, items, opts, remote)
    ensures 2 <= |items| <= 10 && |opts.caption| <= MAX_CAPTION ==>
              (remote <==> forall k :: 0 <= k < |items| ==> IsRemote(items[k].ref))
  {
    hide IsEntry, IsRemote, GoodKind;
    media, remote := [], false;
    if |items| < 2 || |items| > 10 {
      return Some(BadCount(|items|)), media, remote;
    }
    if |opts.caption| > MAX_CAPTION {
      return Some(CaptionTooLong), media, remote;
    }
    remote := AllRemote(items);
    err := ValidateMediaItems(items, remote);
    if err.Some? {
      return;
    }
    for i := 0 to |items|
      invariant |media| == i
      invariant forall k :: 0 <= k < i ==> IsEntry(media[k], items[k], opts, remote, k)
    {
      var entry := BuildEntry(items[i], opts, remote, i);
      media := media + [entry];
    }
  }

  /** Caption, parse mode, reply and silence appear on the first entry only. */
  lemma OptionsOnFirstOnly(media: seq<Entry>, items: seq<MediaItem>, opts: Options, remote: bool, i: nat)
    requires AreEntries(media, items, opts, remote) && 0 < i < |items|
    ensures media[i].Keys == {"type", "media"}
  {
  }

  // ----- The requests -----

  /** The JSON values that album requests carry. */
  datatype Json = Str(text: string) | Entries(entries: seq<Entry>) | Object(fields: map<string, Json>)

  /** The payload of an album, for both transports. */
  function Payload(chatID: string, media: seq<Entry>): Json {
    Object(map["chat_id" := Str(chatID), "media" := Entries(media)])
  }

  datatype Part =
    | Text(name: string, value: string)
    | Document(name: string, content: Json)
    | Attached(name: string, handle: nat)  // streams an open file

  /** A whole payload as the JSON document, or the parts of a multipart body. */
  datatype Request = JsonRequest(document: Json) | Multipart(parts: seq<Part>)

  /** The parts of a complete body. The field named "media" holds the whole
      payload, not its entries alone. */
  function Body(chatID: string, media: seq<Entry>, handles: seq<nat>): seq<Part> {
    [Text("chat_id", chatID), Document("media", Payload(chatID, media))]
    + seq(|handles|, i requires 0 <= i < |handles| => Attached(PartName(i), handles[i]))
  }

  /** The whole body, part by part. */
  lemma BodyIs(chatID: string, media: seq<Entry>, handles: seq<nat>, i: nat)
    requires i < |handles|
    ensures var parts := Body(chatID, media, handles);
            && |parts| == 2 + |handles|
            && parts[0] == Text("chat_id", chatID)
            && parts[1] == Document("media", Object(map["chat_id" := Str(chatID), "media" := Entries(media)]))
            && parts[2 + i] == Attached("file" + DecimalInt(i), handles[i])
  {
  }

  /** The writing loop of the upload, which gets `writable` parts through. */
  method WriteParts(chatID: string, media: seq<Entry>, handles: seq<nat>, writable: nat) returns (parts: seq<Part>)
    ensures parts == First(Body(chatID, media, handles), writable)
  {
    hide PartName;
    parts := [];
    var failed := writable == 0;
    if !failed {
      parts := parts + [Text("chat_id", chatID)];
      failed := writable == 1;
      if !failed {
        parts := parts + [Document("media", Payload(chatID, media))];
      }
    }
    ghost var body := Body(chatID, media, handles);
    for i := 0 to |handles|
      invariant failed ==> writable < |body| && parts == body[..writable]
      invariant !failed ==> parts == body[..i + 2] && i + 2 <= writable
    {
      if failed {
        break;
      }
      failed := i + 2 == writable;
      if !failed {
        parts := parts + [Attached(PartName(i), handles[i])];
        assert body[i + 2] == Attached(PartName(i), handles[i]);
      }
    }
    assert body[..|body|] == body;
  }

  /** The first part of a given name. */
  function Lookup(parts: seq<Part>, name: string): Option<Part> {
    if parts == [] then None
    else if parts[0].name == name then Some(parts[0])
    else Lookup(parts[1..], name)
  }

  lemma {:induction false} LookupAt(parts: seq<Part>, k: nat)
    requires k < |parts| && forall j :: 0 <= j < k ==> parts[j].name != parts[k].name
    ensures Lookup(parts, parts[k].name) == Some(parts[k])
  {
    if k == 0 {
    } else {
      LookupAt(parts[1..], k - 1);
    }
  }

  lemma PartNamesDiffer(i: nat, j: nat)
    ensures PartName(i) == PartName(j) ==> i == j
    ensures PartName(i) != "chat_id" && PartName(i) != "media"
  {
    assert PartName(i)[0] == 'f';
    if PartName(i) == PartName(j) {
      assert PartName(i)[4..] == Decimal(i) && PartName(j)[4..] == Decimal(j);
      DecimalInjective(i, j);
    }
  }

  /** What the server finds under the name "media". */
  function MediaValue(r: Request): Option<Json> {
    match r
    case JsonRequest(document) =>
      if document.Object? && "media" in document.fields then Some(document.fields["media"]) else None
    case Multipart(parts) =>
      var part := Lookup(parts, "media");
      if part.Some? && part.value.Document? then Some(part.value.content) else None
  }

  function WholeRequest(chatID: string, media: seq<Entry>, handles: seq<nat>, remote: bool): Request {
    if remote then JsonRequest(Payload(chatID, media)) else Multipart(Body(chatID, media, handles))
  }

  /** Only the remote request has the array of entries under "media". In the
      multipart request of a local album that field holds the payload object,
      one level too many, whatever the entries. */
  lemma MediaIsArrayExactly(chatID: string, media: seq<Entry>, handles: seq<nat>, remote: bool)
    ensures MediaValue(WholeRequest(chatID, media, handles, remote)) ==
            Some(if remote then Entries(media) else Payload(chatID, media))
    ensures (exists entries :: MediaValue(WholeRequest(chatID, media, handles, remote)) == Some(Entries(entries)))
            <==> remote
  {
    hide Lookup;
    var parts := Body(chatID, media, handles);
    LookupAt(parts, 1);
    assert MediaValue(WholeRequest(chatID, media, handles, remote)) ==
           Some(if remote then Entries(media) else Payload(chatID, media));
  }

  /** Two local photos: the "media" field is an object that repeats the chat. */
  lemma LocalAlbumExample(handles: seq<nat>)
    ensures var media := [map["type" := PHOTO, "media" := "attach://file0"],
                          map["type" := PHOTO, "media" := "attach://file1"]];
            var items := [MediaItem(PHOTO, "a.jpg"), MediaItem(PHOTO, "b.jpg")];
            && Accepted(items, Options("", "", 0, false))
            && AreEntries(media, items, Options("", "", 0, false), false)
            && MediaValue(Multipart(Body("1", media, handles))) ==
               Some(Object(map["chat_id" := Str("1"), "media" := Entries(media)]))
  {
    hide Lookup;
    var media := [map["type" := PHOTO, "media" := "attach://file0"],
                  map["type" := PHOTO, "media" := "attach://file1"]];
    MediaIsArrayExactly("1", media, handles, false);
    assert ATTACH + PartName(0) == "attach://file0" && ATTACH + PartName(1) == "attach://file1";
    assert !IsRemote("a.jpg") && !IsRemote("b.jpg");
  }

  /** The two loops line up: the attachment that the i-th entry of the sent
      payload names is the part that streams the i-th opened file. */
  lemma ReferencesResolve(chatID: string, media: seq<Entry>, items: seq<MediaItem>, opts: Options,
                          handles: seq<nat>, i: nat)
    requires AreEntries(media, items, opts, false) && |handles| == |items| && i < |items|
    ensures var parts := Body(chatID, media, handles);
            var sent := MediaValue(Multipart(parts));
            && sent.Some? && sent.value.Object? && "media" in sent.value.fields && sent.value.fields["media"].Entries?
            && var entries := sent.value.fields["media"].entries;
               && |entries| == |items| && "media" in entries[i] && ATTACH <= entries[i]["media"]
               && Lookup(parts, entries[i]["media"][|ATTACH|..]) == Some(Attached(PartName(i), handles[i]))
  {
    hide PartName, Lookup;
    MediaIsArrayExactly(chatID, media, handles, false);
    assert IsEntry(media[i], items[i], opts, false, i);
    assert (ATTACH + PartName(i))[|ATTACH|..] == PartName(i);
    var parts := Body(chatID, media, handles);
    forall j | 0 <= j < i + 2 ensures parts[j].name != parts[i + 2].name {
      PartNamesDiffer(i, if j < 2 then 0 else j - 2);
    }
    LookupAt(parts, i + 2);
  }

  // ----- Opening and closing the files -----

  /** The operating system: whether the k-th open succeeds, and a ledger of handles. */
  class FileSystem {
    const grants: nat -> bool
    var tried: nat
    var paths: seq<string>  // the path of each handle
    var closed: seq<nat>     // handles, in the order they were closed

    constructor (grants: nat -> bool)
      ensures this.grants == grants && tried == 0 && paths == [] && closed == []
    {
      this.grants := grants;
      tried, paths, closed := 0, [], [];
    }

    method Open(path: string) returns (r: Option<nat>)
      modifies this`tried, this`paths
      ensures tried == old(tried) + 1
      ensures r == if grants(old(tried)) then Some(|old(paths)|) else None
      ensures paths == if r.Some? then old(paths) + [path] else old(paths)
    {
      if grants(tried) {
        r := Some(|paths|);
        paths := paths + [path];
      } else {
        r := None;
      }
      tried := tried + 1;
    }

    method Close(handle: nat)
      modifies this`closed
      ensures closed == old(closed) + [handle]
    {
      closed := closed + [handle];
    }
  }

  /** The handles from `from` up to but not including `to`. */
  function Handles(from: nat, to: nat): seq<nat>
    requires from <= to
  {
    seq(to - from, k => from + k)
  }

  method CloseAll(handles: seq<nat>, fs: FileSystem)
    modifies fs`closed
    ensures fs.closed == old(fs.closed) + handles
  {
    for i := 0 to |handles|
      invariant fs.closed == old(fs.closed) + handles[..i]
    {
      fs.Close(handles[i]);
    }
    assert handles[..|handles|] == handles;
  }

  function Refs(items: seq<MediaItem>): (refs: seq<string>)
    ensures |refs| == |items|
  {
    seq(|items|, k requires 0 <= k < |items| => items[k].ref)
  }

  /** How many of the next `n` opens succeed before the first refusal. */
  function Granted(grants: nat -> bool, from: nat, n: nat): (k: nat)
    ensures k <= n
    ensures forall j :: from <= j < from + k ==> grants(j)
    ensures k < n ==> !grants(from + k)
    decreases n
  {
    if n == 0 || !grants(from) then 0 else 1 + Granted(grants, from + 1, n - 1)
  }

  /** Every handle ever issued was closed exactly once. */
  ghost predicate Balanced(paths: seq<string>, closed: seq<nat>) {
    closed == Handles(0, |paths|)
  }

  lemma NoHandles(n: nat)
    ensures Handles(n, n) == []
  {
  }

  lemma HandlesGrow(m: nat, n: nat)
    requires m <= n
    ensures Handles(m, n) + [n] == Handles(m, n + 1)
  {
  }

  lemma HandlesJoin(m: nat, n: nat)
    requires m <= n
    ensures Handles(0, m) + Handles(m, n) == Handles(0, n)
  {
  }

  lemma RefsGrow(items: seq<MediaItem>, i: nat)
    requires i < |items|
    ensures Refs(items)[..i + 1] == Refs(items)[..i] + [items[i].ref]
  {
  }

  lemma GrantedStep(grants: nat -> bool, from: nat, n: nat)
    ensures n == 0 ==> Granted(grants, from, n) == 0
    ensures n > 0 ==> Granted(grants, from, n) == if grants(from) then 1 + Granted(grants, from + 1, n - 1) else 0
  {
  }

  /** The opening loop: it stops at the first refusal. */
  method OpenInOrder(items: seq<MediaItem>, fs: FileSystem) returns (handles: seq<nat>, ok: bool)
    modifies fs`tried, fs`paths
    ensures var k := Granted(fs.grants, old(fs.tried), |items|);
            && fs.paths == old(fs.paths) + Refs(items)[..k]
            && handles == Handles(|old(fs.paths)|, |old(fs.paths)| + k)
            && (ok <==> k == |items|)
  {
    hide Handles, Refs, Granted;
    handles, ok := [], true;
    ghost var first, tried := |fs.paths|, fs.tried;
    NoHandles(first);
    for i := 0 to |items|
      invariant fs.tried == tried + i
      invariant Granted(fs.grants, tried, |items|) == i + Granted(fs.grants, tried + i, |items| - i)
      invariant fs.paths == old(fs.paths) + Refs(items)[..i] && handles == Handles(first, first + i)
    {
      GrantedStep(fs.grants, tried + i, |items| - i);
      RefsGrow(items, i);
      HandlesGrow(first, first + i);
      ghost var paths := fs.paths;
      var f := fs.Open(items[i].ref);
      if f.None? {
        assert Granted(fs.grants, tried, |items|) == i;
        return handles, false;
      }
      assert fs.paths == paths + [items[i].ref] == old(fs.paths) + Refs(items)[..i + 1];
      handles := handles + [f.value];
      assert handles == Handles(first, first + (i + 1));
    }
    GrantedStep(fs.grants, tried + |items|, 0);
    assert Granted(fs.grants, tried, |items|) == |items|;
  }

  /** How the request of one attempt fares. */
  datatype Fate = Refused | Failed | Answered

  datatype Attempt = NotOpened | NotSent | Sent(request: Request, answered: bool)

  /** sendMediaGroupPayload: a remote album is one JSON document and opens
      nothing; a local one opens its files in order up to the first refusal and
      sends parts only when all are open. Whether opening fails, the request
      cannot be built, sending fails, the writer is stopped after any number of
      parts or the server answers, each file the attempt opened is closed exactly once. */
  method SendMediaGroupPayload(chatID: string, media: seq<Entry>, items: seq<MediaItem>, remote: bool,
                               fs: FileSystem, fate: Fate, writable: nat)
    returns (a: Attempt)
    modifies fs
    ensures var k := if remote then 0 else Granted(fs.grants, old(fs.tried), |items|);
            var first, next := |old(fs.paths)|, |old(fs.paths)| + k;
            && fs.paths == old(fs.paths) + Refs(items)[..k]
            && fs.closed == old(fs.closed) + Handles(first, next)
            && (Balanced(old(fs.paths), old(fs.closed)) ==> Balanced(fs.paths, fs.closed))
            && a == if !remote && k < |items| then NotOpened
                    else if fate.Refused? then NotSent
                    else Sent(if remote then JsonRequest(Payload(chatID, media))
                              else Multipart(First(Body(chatID, media, Handles(first, next)), writable)),
                              fate.Answered?)
  {
    hide Body, Handles, Granted, Payload, First;
    ghost var first, k := |fs.paths|, Granted(fs.grants, fs.tried, |items|);
    NoHandles(first);
    HandlesJoin(first, first + k);
    if remote {
      var document := Payload(chatID, media);
      return if fate.Refused? then NotSent else Sent(JsonRequest(document), fate.Answered?);
    }
    var handles, ok := OpenInOrder(items, fs);
    if !ok {
      CloseAll(handles, fs);
      return NotOpened;
    }
    var parts := WriteParts(chatID, media, handles, writable);
    CloseAll(handles, fs);
    a := if fate.Refused? then NotSent else Sent(Multipart(parts), fate.Answered?);
  }
}
