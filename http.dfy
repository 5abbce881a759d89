/**
  The HTTP front door (src/http_receiver.cpp): one request is read from a
  connection, routed by its request line, and a `POST /wrk` body is decoded,
  trimmed and submitted as a job. The socket is modelled by the sequence of
  byte strings successive `recv` calls return, an empty one standing for a
  closed connection or an error.
 */
module Http {
  import opened Options
  import opened Text
  import opened Fs
  import opened JobIds
  import opened Submitter
  import opened HttpMessages

  const RECV_LIMIT: nat := 4095     // sizeof(buffer) - 1
  const MAX_REQUEST: nat := 16384
  const POST_LINE: string := "POST /wrk"
  const GET_LINE: string := "GET /wrk"
  const FORM_KEY: string := "content="

  // ---------------------------------------------------------------- urlDecode

  /** `static_cast<char>` of an `int`: the low byte. */
  function ByteChar(v: int): (c: char)
    ensures c as int < 256
  {
    (v % 256) as char
  }

  function Prefixed(p: string, o: Option<string>): Option<string> {
    match o
    case None => None
    case Some(t) => Some(p + t)
  }

  lemma PrefixedEmpty(o: Option<string>)
    ensures Prefixed("", o) == o
  {
    if o.Some? {
      assert "" + o.value == o.value;
    }
  }

  lemma PrefixedTwice(a: string, b: string, o: Option<string>)
    ensures Prefixed(a, Prefixed(b, o)) == Prefixed(a + b, o)
  {
    if o.Some? {
      assert a + (b + o.value) == (a + b) + o.value;
    }
  }

  /**
    `urlDecode`: `+` is a space, `%` followed by at least two more characters is
    the byte of what `std::stoi(<those two>, nullptr, 16)` reads, anything else is kept.
    None stands for the exception `std::stoi` throws when it reads no digit,
    which nothing in the handler catches.
   */
  function UrlDecoded(s: string): Option<string>
    decreases |s|
  {
    if s == [] then Some([])
    else if s[0] == '+' then Prefixed(" ", UrlDecoded(s[1..]))
    else if s[0] == '%' && 2 < |s| then
      match HexPair(s[1], s[2])
      case None => None
      case Some(v) => Prefixed([ByteChar(v)], UrlDecoded(s[3..]))
    else Prefixed([s[0]], UrlDecoded(s[1..]))
  }

  method UrlDecode(encoded: string) returns (decoded: Option<string>)
    ensures decoded == UrlDecoded(encoded)
  {
    var out := "";
    var i := 0;
    assert encoded[0..] == encoded;
    PrefixedEmpty(UrlDecoded(encoded));
    while i < |encoded|
      invariant 0 <= i <= |encoded|
      invariant UrlDecoded(encoded) == Prefixed(out, UrlDecoded(encoded[i..]))
    {
      var rest := encoded[i..];
      if encoded[i] == '+' {
        PrefixedTwice(out, " ", UrlDecoded(rest[1..]));
        out := out + " ";
      } else if encoded[i] == '%' && i + 2 < |encoded| {
        var hex := HexPair(encoded[i + 1], encoded[i + 2]);
        if hex.None? {
          return None;
        }
        PrefixedTwice(out, [ByteChar(hex.value)], UrlDecoded(rest[3..]));
        assert rest[3..] == encoded[i + 3..];
        out := out + [ByteChar(hex.value)];
        i := i + 2;
      } else {
        PrefixedTwice(out, [encoded[i]], UrlDecoded(rest[1..]));
        out := out + [encoded[i]];
      }
      assert encoded[i + 1..] == encoded[i..][1..];
      i := i + 1;
    }
    assert out + [] == out;
    decoded := Some(out);
  }

  /** Decoding never lengthens the text. */
  lemma {:induction false} UrlDecodedShorter(s: string)
    ensures UrlDecoded(s).Some? ==> |UrlDecoded(s).value| <= |s|
    decreases |s|
  {
    if s != [] {
      if s[0] == '%' && 2 < |s| {
        UrlDecodedShorter(s[3..]);
      } else {
        UrlDecodedShorter(s[1..]);
      }
    }
  }

  /** Text without `+` and `%` decodes to itself. */
  lemma {:induction false} UrlDecodedPlain(s: string)
    requires '+' !in s && '%' !in s
    ensures UrlDecoded(s) == Some(s)
    decreases |s|
  {
    if s != [] {
      assert s[0] in s;
      assert forall c :: c in s[1..] ==> c in s;
      UrlDecodedPlain(s[1..]);
      assert [s[0]] + s[1..] == s;
    }
  }

  /** A `%` with fewer than two characters after it is kept as it is, and what follows is decoded on its own. */
  lemma UrlDecodedTrailingPercent(rest: string)
    requires |rest| <= 1
    ensures UrlDecoded("%" + rest) == Prefixed("%", UrlDecoded(rest))
  {
    assert ("%" + rest)[1..] == rest;
  }

  /** An escape with no hexadecimal digit in its two characters throws. */
  lemma UrlDecodeThrows(a: char, b: char, rest: string)
    requires !IsHexDigit(a) && !IsHexDigit(b)
    ensures UrlDecoded(['%', a, b] + rest) == None
  {
    var s := ['%', a, b] + rest;
    assert s[1] == a && s[2] == b;
  }

  /** The characters an HTML form sends as they are. */
  predicate Unreserved(c: char) {
    'a' <= c <= 'z' || 'A' <= c <= 'Z' || '0' <= c <= '9' || c == '-' || c == '_' || c == '.' || c == '*'
  }

  predicate IsByteText(t: string) {
    forall i :: 0 <= i < |t| ==> t[i] as int < 256
  }

  /** How a browser encodes one byte of a form field: space as `+`, other reserved bytes as `%XX`. */
  function FormEscape(c: char): string
    requires c as int < 256
  {
    if c == ' ' then "+"
    else if Unreserved(c) then [c]
    else ['%', HexChar(c as int / 16), HexChar(c as int % 16)]
  }

  /** `application/x-www-form-urlencoded` encoding of a field value. */
  function FormEncoded(t: string): string
    requires IsByteText(t)
    decreases |t|
  {
    if t == [] then [] else FormEscape(t[0]) + FormEncoded(t[1..])
  }

  /** An escape `%XY` that `std::stoi` reads as `v` decodes to the byte of `v`. */
  lemma PercentDecodes(hi: char, lo: char, rest: string, v: int)
    requires HexPair(hi, lo) == Some(v)
    ensures UrlDecoded(['%', hi, lo] + rest) == Prefixed([ByteChar(v)], UrlDecoded(rest))
  {
    var s := ['%', hi, lo] + rest;
    assert s[1] == hi && s[2] == lo && s[3..] == rest;
  }

  /** A character other than `+` and `%` decodes to itself. */
  lemma UrlDecodedKept(c: char, rest: string)
    requires c != '+' && c != '%'
    ensures UrlDecoded([c] + rest) == Prefixed([c], UrlDecoded(rest))
  {
    assert ([c] + rest)[1..] == rest;
  }

  /** `+` decodes to a space. */
  lemma UrlDecodedPlus(rest: string)
    ensures UrlDecoded("+" + rest) == Prefixed([' '], UrlDecoded(rest))
  {
    assert ("+" + rest)[1..] == rest;
  }

  /** A byte value escaped as `%XY` decodes to the byte. */
  lemma UrlDecodedPercent(v: nat, rest: string)
    requires v < 256
    ensures UrlDecoded(['%', HexChar(v / 16), HexChar(v % 16)] + rest) == Prefixed([ByteChar(v)], UrlDecoded(rest))
  {
    HexPairValue(v);
    PercentDecodes(HexChar(v / 16), HexChar(v % 16), rest, v);
  }

  /** A byte-valued character is the byte of its own code. */
  lemma ByteCharOf(c: char)
    requires c as int < 256
    ensures ByteChar(c as int) == c
  {
  }

  /** A byte-valued character escaped as `%XY` decodes to itself. */
  lemma UrlDecodedPercentChar(c: char, rest: string)
    requires c as int < 256
    ensures UrlDecoded(['%', HexChar(c as int / 16), HexChar(c as int % 16)] + rest) == Prefixed([c], UrlDecoded(rest))
  {
    UrlDecodedPercent(c as int, rest);
    ByteCharOf(c);
  }

  /** Each encoded byte decodes back to the byte, whatever follows it. */
  lemma UrlDecodedEscape(c: char, rest: string)
    requires c as int < 256
    ensures UrlDecoded(FormEscape(c) + rest) == Prefixed([c], UrlDecoded(rest))
  {
    if c == ' ' {
      UrlDecodedPlus(rest);
    } else if Unreserved(c) {
      UrlDecodedKept(c, rest);
    } else {
      UrlDecodedPercentChar(c, rest);
    }
  }

  /** Decoding undoes a browser's form encoding. */
  lemma {:induction false} UrlDecodeFormEncoded(t: string)
    requires IsByteText(t)
    ensures UrlDecoded(FormEncoded(t)) == Some(t)
    decreases |t|
  {
    if t != [] {
      UrlDecodedEscape(t[0], FormEncoded(t[1..]));
      UrlDecodeFormEncoded(t[1..]);
      assert [t[0]] + t[1..] == t;
    }
  }

  // ---------------------------------------------------------------- trimming

  predicate IsTrailing(c: char) { c == '\n' || c == '\r' || c == '\0' }

  /** The content with every trailing `\n`, `\r` and NUL removed. */
  function Trimmed(s: string): (t: string)
    ensures |t| <= |s| && t == s[..|t|]
    ensures t == [] || !IsTrailing(t[|t| - 1])
    ensures forall i :: |t| <= i < |s| ==> IsTrailing(s[i])
    decreases |s|
  {
    if s != [] && IsTrailing(s[|s| - 1]) then Trimmed(s[..|s| - 1]) else s
  }

  /** Trailing line ends and NULs after text that does not end in one are exactly what is removed. */
  lemma {:induction false} TrimmedAppend(s: string, tail: string)
    requires s == [] || !IsTrailing(s[|s| - 1])
    requires forall i :: 0 <= i < |tail| ==> IsTrailing(tail[i])
    ensures Trimmed(s + tail) == s
    decreases |tail|
  {
    if tail == [] {
      assert s + tail == s;
    } else {
      var u := s + tail;
      assert u[..|u| - 1] == s + tail[..|tail| - 1];
      TrimmedAppend(s, tail[..|tail| - 1]);
    }
  }

  lemma TrimmedIdempotent(s: string)
    ensures Trimmed(Trimmed(s)) == Trimmed(s)
  {
    TrimmedAppend(Trimmed(s), []);
  }

  /** The `pop_back` loop of the handler. */
  method TrimTrailing(s: string) returns (t: string)
    ensures t == Trimmed(s)
  {
    t := s;
    while t != [] && (t[|t| - 1] == '\n' || t[|t| - 1] == '\r' || t[|t| - 1] == '\0')
      invariant Trimmed(t) == Trimmed(s)
      decreases |t|
    {
      t := t[..|t| - 1];
    }
  }

  // ---------------------------------------------------------------- receiving

  /**
    The receive loop over the data successive `recv` calls return: it stops
    when a call returns nothing, when the request is complete, or once more
    than 16 KiB have arrived. None stands for a `Content-Length` value
    `std::stoi` cannot read, which throws out of the handler.
   */
  function Gather(chunks: seq<string>, request: string): Option<string>
    decreases |chunks|
  {
    if chunks == [] || chunks[0] == [] then Some(request)
    else
      var r := request + chunks[0];
      match ReadProgress(r)
      case BadLength => None
      case Complete => Some(r)
      case Incomplete => if |r| > MAX_REQUEST then Some(r) else Gather(chunks[1..], r)
  }

  /**
    The checks the receive loop makes after each `recv`: look for the empty
    line, then for `Content-Length`, read its value with `std::stoi` and compare
    it with the body received so far.
   */
  method InspectRequest(request: string) returns (progress: Progress)
    ensures progress == ReadProgress(request)
  {
    var headerEnd := Find(request, HEADER_END, 0);
    if headerEnd.None? {
      return Incomplete;
    }
    var clPos := Find(request, LENGTH_FIELD, 0);
    if clPos.None? {
      return Complete;
    }
    var clStart := clPos.value + |LENGTH_FIELD|;
    var clEnd := Find(request, CRLF, clStart);
    var field := if clEnd.Some? then request[clStart..clEnd.value] else request[clStart..];
    var contentLength := Stoi(field);
    if contentLength.None? {
      return BadLength;
    }
    var bodyReceived := |request| - (headerEnd.value + |HEADER_END|);
    progress := if bodyReceived >= contentLength.value then Complete else Incomplete;
  }

  method ReceiveRequest(chunks: seq<string>) returns (received: Option<string>)
    ensures received == Gather(chunks, "")
  {
    var request := "";
    var totalBytes := 0;
    var i := 0;
    while i < |chunks|
      invariant 0 <= i <= |chunks| && totalBytes == |request|
      invariant Gather(chunks, "") == Gather(chunks[i..], request)
    {
      var bytes := chunks[i];
      if bytes == [] {
        break;
      }
      assert chunks[i..][1..] == chunks[i + 1..];
      request := request + bytes;
      totalBytes := totalBytes + |bytes|;
      var progress := InspectRequest(request);
      if progress == BadLength {
        return None;
      } else if progress == Complete {
        break;
      }
      if totalBytes > MAX_REQUEST {
        break;
      }
      i := i + 1;
    }
    received := Some(request);
  }

  /**
    The first `k` calls of a receive loop started on `request` returned data,
    and after each of them but the last the request was still incomplete and
    within the size limit.
   */
  ghost predicate KeptReading(chunks: seq<string>, request: string, k: nat) {
    && k <= |chunks|
    && (forall j :: 0 <= j < k ==> chunks[j] != [])
    && forall j :: 0 < j < k ==>
         ReadProgress(request + Concat(chunks[..j])) == Incomplete && |request + Concat(chunks[..j])| <= MAX_REQUEST
  }

  lemma ConcatFirst(chunks: seq<string>, j: nat)
    requires 0 < j <= |chunks|
    ensures Concat(chunks[..j]) == chunks[0] + Concat(chunks[1..][..j - 1])
  {
    assert chunks[..j][0] == chunks[0] && chunks[..j][1..] == chunks[1..][..j - 1];
  }

  ghost predicate GatherStopsAt(chunks: seq<string>, request: string, k: nat) {
    && KeptReading(chunks, request, k)
    && var r := request + Concat(chunks[..k]);
    && (Gather(chunks, request) == None <==> k > 0 && ReadProgress(r) == BadLength)
    && (Gather(chunks, request).Some? ==>
          && Gather(chunks, request).value == r
          && (k == |chunks| || chunks[k] == [] || (k > 0 && (ReadProgress(r) == Complete || |r| > MAX_REQUEST))))
  }

  /**
    What the receive loop delivers is the data of its first `k` calls, in
    order, where it kept reading while the request was incomplete and small,
    and stopped for one of the loop's reasons; it fails exactly when the last
    of those calls made the declared length unreadable.
   */
  lemma {:induction false} GatherStops(chunks: seq<string>, request: string)
    ensures exists k :: GatherStopsAt(chunks, request, k)
    decreases |chunks|
  {
    if chunks == [] || chunks[0] == [] {
      assert chunks[..0] == [];
      assert request + Concat(chunks[..0]) == request;
      assert GatherStopsAt(chunks, request, 0);
    } else {
      var r1 := request + chunks[0];
      if ReadProgress(r1) != Incomplete || |r1| > MAX_REQUEST {
        GatherStopsFirst(chunks, request);
      } else {
        GatherStops(chunks[1..], r1);
        var k': nat :| GatherStopsAt(chunks[1..], r1, k');
        GatherStopsLater(chunks, request, k');
      }
    }
  }

  /** A loop that stops after its first call. */
  lemma GatherStopsFirst(chunks: seq<string>, request: string)
    requires chunks != [] && chunks[0] != []
    requires ReadProgress(request + chunks[0]) != Incomplete || |request + chunks[0]| > MAX_REQUEST
    ensures GatherStopsAt(chunks, request, 1)
  {
    ConcatFirst(chunks, 1);
    assert chunks[1..][..0] == [];
    assert request + Concat(chunks[..1]) == request + chunks[0];
    assert KeptReading(chunks, request, 1);
  }

  /** The data read from the second call on, after the first call's. */
  lemma PrefixShift(chunks: seq<string>, request: string, j: nat)
    requires 0 < j <= |chunks|
    ensures request + Concat(chunks[..j]) == (request + chunks[0]) + Concat(chunks[1..][..j - 1])
  {
    ConcatFirst(chunks, j);
  }

  /** Reading went on past the first call, as far as it went on in the rest. */
  lemma KeptReadingLater(chunks: seq<string>, request: string, k': nat)
    requires chunks != [] && chunks[0] != []
    requires ReadProgress(request + chunks[0]) == Incomplete && |request + chunks[0]| <= MAX_REQUEST
    requires KeptReading(chunks[1..], request + chunks[0], k')
    ensures KeptReading(chunks, request, k' + 1)
  {
    var r1 := request + chunks[0];
    var k := k' + 1;
    forall j | 0 < j < k
      ensures ReadProgress(request + Concat(chunks[..j])) == Incomplete
      ensures |request + Concat(chunks[..j])| <= MAX_REQUEST
    {
      PrefixShift(chunks, request, j);
      var p := r1 + Concat(chunks[1..][..j - 1]);
      if j == 1 {
        assert chunks[1..][..0] == [];
        assert p == r1;
      } else {
        assert 0 < j - 1 < k';
        assert ReadProgress(p) == Incomplete && |p| <= MAX_REQUEST;
      }
    }
    forall j | 0 <= j < k
      ensures chunks[j] != []
    {
      if j > 0 {
        assert chunks[j] == chunks[1..][j - 1];
      }
    }
  }

  /** A loop that goes on after its first call stops where the rest of it stops. */
  lemma GatherStopsLater(chunks: seq<string>, request: string, k': nat)
    requires chunks != [] && chunks[0] != []
    requires ReadProgress(request + chunks[0]) == Incomplete && |request + chunks[0]| <= MAX_REQUEST
    requires GatherStopsAt(chunks[1..], request + chunks[0], k')
    ensures GatherStopsAt(chunks, request, k' + 1)
  {
    var r1 := request + chunks[0];
    var k := k' + 1;
    KeptReadingLater(chunks, request, k');
    PrefixShift(chunks, request, k);
    assert Gather(chunks, request) == Gather(chunks[1..], r1);
    if k < |chunks| {
      assert chunks[k] == chunks[1..][k'];
    }
  }

  /** Each `recv` returns at most 4095 bytes, so a request never exceeds 16 KiB by more than that. */
  lemma {:induction false} GatherBound(chunks: seq<string>, request: string)
    requires |request| <= MAX_REQUEST
    requires forall i :: 0 <= i < |chunks| ==> |chunks[i]| <= RECV_LIMIT
    ensures Gather(chunks, request).Some? ==> |Gather(chunks, request).value| <= MAX_REQUEST + RECV_LIMIT
    decreases |chunks|
  {
    if chunks != [] && chunks[0] != [] {
      var r := request + chunks[0];
      if ReadProgress(r) == Incomplete && |r| <= MAX_REQUEST {
        GatherBound(chunks[1..], r);
      }
    }
  }

  // ---------------------------------------------------------------- routing

  /** What the handler makes of a request it has read. */
  datatype Route =
    | Ignored            // neither `POST /wrk` nor `GET /wrk`: no reply
    | Form               // `GET /wrk`: the form page
    | Unframed           // `POST /wrk` without an empty line: no reply
    | Undecodable        // a form body whose decoding throws
    | Post(content: string)

  /** The submitted content: the body, form-decoded when it starts with `content=`, then trimmed. */
  function RouteOf(request: string): Route {
    if Find(request, POST_LINE, 0) == Some(0) then
      match MessageBody(request)
      case None => Unframed
      case Some(body) =>
        if Find(body, FORM_KEY, 0) == Some(0) then
          match UrlDecoded(body[|FORM_KEY|..])
          case None => Undecodable
          case Some(t) => Post(Trimmed(t))
        else Post(Trimmed(body))
    else if Find(request, GET_LINE, 0) == Some(0) then Form
    else Ignored
  }

  /** The request-line checks, body extraction, decoding and trimming of the handler. */
  method RouteRequest(request: string) returns (route: Route)
    ensures route == RouteOf(request)
  {
    if Find(request, POST_LINE, 0) == Some(0) {
      var bodyStart := Find(request, HEADER_END, 0);
      if bodyStart.None? {
        return Unframed;
      }
      var content := request[bodyStart.value + |HEADER_END|..];
      if Find(content, FORM_KEY, 0) == Some(0) {
        var decoded := UrlDecode(content[|FORM_KEY|..]);
        if decoded.None? {
          return Undecodable;
        }
        content := decoded.value;
      }
      content := TrimTrailing(content);
      route := Post(content);
    } else if Find(request, GET_LINE, 0) == Some(0) {
      route := Form;
    } else {
      route := Ignored;
    }
  }

  /** A form post of byte text without trailing line ends carries that text exactly. */
  lemma FormPostCarries(request: string, t: string)
    requires StartsWith(request, POST_LINE) && IsByteText(t)
    requires MessageBody(request) == Some(FORM_KEY + FormEncoded(t))
    requires t == [] || !IsTrailing(t[|t| - 1])
    ensures RouteOf(request) == Post(t)
  {
    FindAtStart(request, POST_LINE);
    var body := FORM_KEY + FormEncoded(t);
    FindAtStart(body, FORM_KEY);
    assert body[|FORM_KEY|..] == FormEncoded(t);
    UrlDecodeFormEncoded(t);
    TrimmedAppend(t, []);
    assert t + [] == t;
  }

  /** A post whose body is not form-encoded is taken as it is, trimmed. */
  lemma RawPostCarries(request: string, body: string)
    requires StartsWith(request, POST_LINE)
    requires MessageBody(request) == Some(body) && !StartsWith(body, FORM_KEY)
    ensures RouteOf(request) == Post(Trimmed(body))
  {
    FindAtStart(request, POST_LINE);
    FindAtStart(body, FORM_KEY);
  }

  /** Only requests that begin with one of the two request lines are answered. */
  lemma RouteByRequestLine(request: string)
    ensures RouteOf(request) == Form <==> StartsWith(request, GET_LINE)
    ensures RouteOf(request) == Ignored <==> !StartsWith(request, POST_LINE) && !StartsWith(request, GET_LINE)
  {
    FindAtStart(request, POST_LINE);
    FindAtStart(request, GET_LINE);
    if StartsWith(request, POST_LINE) {
      assert request[..|POST_LINE|][0] == request[0] == 'P';
    }
    if StartsWith(request, GET_LINE) {
      assert request[..|GET_LINE|][0] == request[0] == 'G';
    }
  }

  /** The reply for a route, given the id `submit` returned for a non-empty post. */
  function ReplyFor(route: Route, id: string): Reply {
    match route
    case Ignored => NoReply
    case Unframed => NoReply
    case Form => FormPage
    case Undecodable => Crashed
    case Post(content) => if content == "" then NoContent else if id == "" then WriteFailed else Queued
  }

  /** The request that yields a submission, and its content. */
  function Submitted(received: Option<string>): Option<string> {
    match received
    case None => None
    case Some(request) =>
      match RouteOf(request)
      case Post(content) => if content != "" then Some(content) else None
      case _ => None
  }

  function Outcome(received: Option<string>, id: string): Reply {
    match received
    case None => Crashed
    case Some(request) => ReplyFor(RouteOf(request), id)
  }

  /** The bytes the handler writes to the socket for a reply, with the lengths the code declares. */
  function Sent(reply: Reply): Option<string> {
    match ResponseAsWritten(reply)
    case None => None
    case Some(r) => Some(Serialized(r))
  }

  /** A reply is sent exactly when the handler answers, and a job is reported queued only when `submit` returned an id. */
  lemma OutcomeReplies(received: Option<string>, id: string)
    ensures Sent(Outcome(received, id)).None? <==>
      received.None? || RouteOf(received.value) in {Ignored, Unframed, Undecodable}
    ensures Outcome(received, id) == Queued <==> Submitted(received).Some? && id != ""
    ensures Outcome(received, id) == WriteFailed <==> Submitted(received).Some? && id == ""
    ensures Outcome(received, id) == NoContent <==> received.Some? && RouteOf(received.value) == Post("")
  {
  }

  /**
    The HTTP receiver of src/http_receiver.cpp over the shared file system and
    identifier generator; the workspace passed to it is the one `Work` uses.
   */
  class HttpReceiver {
    const fs: FileSystem
    const ids: IdGenerator

    constructor (fs: FileSystem, ids: IdGenerator)
      ensures this.fs == fs && this.ids == ids
    {
      this.fs := fs;
      this.ids := ids;
    }

    /**
      `handleRequest` for one connection at clock reading `now`. A non-empty
      post builds a `Work` (which creates `writing/` and `ready/` when they are
      missing, giving `prepared`) and submits the content without an email.
      Besides the bytes sent it returns the reply and the id `submit`
      returned; the ghost results are the prepared disk and the outcome.
     */
    method HandleRequest(chunks: seq<string>, now: Micros)
      returns (sent: Option<string>, reply: Reply, id: string, ghost prepared: Disk, ghost o: SubmitOutcome)
      requires ids.Valid()
      modifies fs, ids
      ensures ids.Valid()
      ensures reply == Outcome(Gather(chunks, ""), id) && sent == Sent(reply)
      ensures Submitted(Gather(chunks, "")).Some? ==>
        var content := Submitted(Gather(chunks, "")).value;
        var jobId := JobId(ids.pid, now, old(ids.counter));
        && prepared.files == old(fs.disk.files)
        && old(fs.disk.dirs) <= prepared.dirs <= old(fs.disk.dirs) + {Writing, Ready}
        && (fs.disk, id) == Submission(prepared, content, "", jobId, o)
        && ids.issued == old(ids.issued) + [jobId]
      ensures Submitted(Gather(chunks, "")).None? ==>
        fs.disk == old(fs.disk) && id == "" && ids.counter == old(ids.counter) && ids.issued == old(ids.issued)
    {
      id := "";
      prepared, o := fs.disk, SubmitOutcome(false, false, false, false);
      var received := ReceiveRequest(chunks);
      if received.None? {
        reply := Crashed;
        sent := Sent(reply);
        return;
      }
      var route := RouteRequest(received.value);
      if route.Post? && route.content != "" {
        var work := new Work(fs, ids);
        prepared := fs.disk;
        id, o := work.Submit(route.content, now);
      }
      reply := ReplyFor(route, id);
      sent := Sent(reply);
    }
  }
}
