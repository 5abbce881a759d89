/**
  HTTP message framing as `handleRequest` (src/http_receiver.cpp) reads it, and
  the replies it writes. A message is complete once its header block, ended by
  an empty line, has arrived together with as many body bytes as its first
  `Content-Length: ` field declares; a message without that field is complete
  with its header block.
 */
module HttpMessages {
  import opened Options
  import opened Text

  const CRLF: string := "\r\n"
  const HEADER_END: string := "\r\n\r\n"
  const LENGTH_FIELD: string := "Content-Length: "
  const TYPE_FIELD: string := "Content-Type: "
  const STATUS_OK: string := "HTTP/1.1 200 OK"
  const STATUS_SERVER_ERROR: string := "HTTP/1.1 500 Internal Server Error"
  const STATUS_BAD_REQUEST: string := "HTTP/1.1 400 Bad Request"
  const TEXT_PLAIN: string := "text/plain"

  /** What the first `Content-Length: ` field of a message says. */
  datatype Length = NoLength | Declared(n: int) | Unreadable

  /**
    The field's value runs from after the field name to the next CRLF, or to the
    end of the message when no CRLF follows; `std::stoi` reads it, and a value
    it cannot read (`Unreadable`) throws out of the handler.
   */
  function DeclaredLength(m: string): (r: Length)
    ensures r.Declared? ==> INT_MIN <= r.n <= INT_MAX
  {
    match LengthValue(m)
    case None => NoLength
    case Some(field) =>
      match Stoi(field)
      case None => Unreadable
      case Some(n) => Declared(n)
  }

  /** The text of the first `Content-Length` field's value. */
  function LengthValue(m: string): Option<string> {
    match Find(m, LENGTH_FIELD, 0)
    case None => None
    case Some(pos) =>
      var start := pos + |LENGTH_FIELD|;
      match Find(m, CRLF, start)
      case Some(e) => Some(m[start..e])
      case None => Some(m[start..])
  }

  /** How far a message has arrived by the rule of the receive loop. */
  datatype Progress = Incomplete | Complete | BadLength

  function ReadProgress(m: string): Progress {
    match Find(m, HEADER_END, 0)
    case None => Incomplete
    case Some(h) =>
      match DeclaredLength(m)
      case NoLength => Complete
      case Unreadable => BadLength
      case Declared(n) => if |m| - (h + |HEADER_END|) >= n then Complete else Incomplete
  }

  /** The body of a message: everything after the first empty line, when there is one. */
  function MessageBody(m: string): (b: Option<string>)
    ensures b.Some? ==> EndsWith(m, b.value)
  {
    match Find(m, HEADER_END, 0)
    case None => None
    case Some(h) => Some(m[h + |HEADER_END|..])
  }

  /**
    The replies the handler can give, and the two ways it gives none:
    `NoReply` closes the connection silently, and `Crashed` is an uncaught
    exception, which ends the whole process.
   */
  datatype Reply = NoReply | FormPage | Queued | WriteFailed | NoContent | Crashed

  /** A response as status line, optional header fields in the order the handler writes them, and body. */
  datatype Response = Response(status: string, contentType: Option<string>, contentLength: Option<nat>, body: string)

  function HeaderLines(r: Response): seq<string> {
    [r.status]
    + (if r.contentType.Some? then [TYPE_FIELD + r.contentType.value] else [])
    + (if r.contentLength.Some? then [LENGTH_FIELD + Decimal(r.contentLength.value)] else [])
  }

  /** Header lines, each ended by CRLF. */
  function HeaderText(ls: seq<string>): string
    decreases |ls|
  {
    if ls == [] then "" else ls[0] + CRLF + HeaderText(ls[1..])
  }

  /** The bytes the handler sends for a response. */
  function Serialized(r: Response): string {
    HeaderText(HeaderLines(r)) + CRLF + r.body
  }

  const FORM_HTML: string :=
    "<!DOCTYPE html>"
    + "<html><head><title>nrvna</title></head>"
    + "<body style='font-family: monospace; max-width: 600px; margin: 50px auto;'>"
    + "<h1>ai works. you flow.</h1>"
    + "<form method='POST'>"
    + "<textarea name='content' rows='10' cols='60' "
    + "placeholder='Enter content to process...' style='width: 100%; font-family: monospace;'></textarea><br><br>"
    + "<button type='submit' style='padding: 10px 20px; font-family: monospace;'>wrk the AI</button>"
    + "</form>"
    + "</body></html>"

  /** A reply that announces its body with a `Content-Length` field in the code. */
  predicate HasDeclaredLength(reply: Reply) {
    reply == Queued || reply == WriteFailed || reply == NoContent
  }

  /** The response the handler code writes for each reply, byte for byte. */
  function ResponseAsWritten(reply: Reply): Option<Response> {
    match reply
    case Queued => Some(Response(STATUS_OK, Some(TEXT_PLAIN), Some(15), "Job queued!\n"))
    case WriteFailed => Some(Response(STATUS_SERVER_ERROR, None, Some(12), "Write failed\n"))
    case NoContent => Some(Response(STATUS_BAD_REQUEST, None, Some(15), "No content\n"))
    case FormPage => Some(Response(STATUS_OK, Some("text/html"), None, FORM_HTML))
    case NoReply => None
    case Crashed => None
  }

  /** The same responses with each declared length set to the length of the body it announces. */
  function ResponseFor(reply: Reply): (c: Option<Response>)
    ensures c.Some? <==> ResponseAsWritten(reply).Some?
    ensures c.Some? ==> var w := ResponseAsWritten(reply).value;
      && c.value.status == w.status && c.value.contentType == w.contentType && c.value.body == w.body
      && (c.value.contentLength.Some? <==> w.contentLength.Some?)
      && (c.value.contentLength.Some? ==> c.value.contentLength.value == |c.value.body|)
  {
    match ResponseAsWritten(reply)
    case None => None
    case Some(r) =>
      Some(if r.contentLength.Some? then r.(contentLength := Some(|r.body|)) else r)
  }

  /** A header line or value: non-empty, no line break, and no `L` (so no field name can hide in it). */
  predicate PlainLine(s: string) {
    s != [] && forall i :: 0 <= i < |s| ==> s[i] != '\r' && s[i] != '\n' && s[i] != 'L'
  }

  predicate WellFormed(r: Response) {
    && PlainLine(r.status)
    && (r.contentType.Some? ==> PlainLine(r.contentType.value))
    && (r.contentLength.Some? ==> r.contentLength.value <= INT_MAX)
    && (r.contentLength.None? ==> 'L' !in r.body)
  }

  /** Lines without line breaks never produce an empty line: after a CRLF comes another line's first byte. */
  lemma {:induction false} HeaderTextNoBlank(ls: seq<string>)
    requires forall i :: 0 <= i < |ls| ==> ls[i] != [] && '\r' !in ls[i] && '\n' !in ls[i]
    ensures var h := HeaderText(ls);
      && (ls != [] ==> |h| >= 2 && h[|h| - 2..] == CRLF)
      && forall j :: 0 <= j < |h| - 2 && h[j] == '\r' ==> h[j + 2] != '\r'
    decreases |ls|
  {
    if ls != [] {
      var l0 := ls[0];
      var t := HeaderText(ls[1..]);
      var h := HeaderText(ls);
      assert h == l0 + CRLF + t;
      HeaderTextNoBlank(ls[1..]);
      forall j | 0 <= j < |h| - 2
        ensures h[j] == '\r' ==> h[j + 2] != '\r'
      {
        if j < |l0| {
          assert h[j] == l0[j] && l0[j] in l0;
        } else if j == |l0| {
          assert ls[1..] != [];
          assert t == ls[1] + CRLF + HeaderText(ls[1..][1..]);
          assert h[j + 2] == ls[1][0];
        } else if j > |l0| + 1 {
          assert h[j] == t[j - |l0| - 2] && h[j + 2] == t[j - |l0|];
        }
      }
      if t == [] {
        assert h[|h| - 2..] == CRLF;
      } else {
        assert ls[1..] != [] by {
          assert ls[1..] == [] ==> t == [];
        }
        assert h[|h| - 2..] == t[|t| - 2..];
      }
    }
  }

  lemma HeaderTextSnoc(ls: seq<string>, l: string)
    ensures HeaderText(ls + [l]) == HeaderText(ls) + l + CRLF
    decreases |ls|
  {
    if ls == [] {
      assert [l][1..] == [];
    } else {
      assert (ls + [l])[1..] == ls[1..] + [l];
      HeaderTextSnoc(ls[1..], l);
    }
  }

  lemma {:induction false} HeaderTextChars(ls: seq<string>, c: char)
    requires forall i :: 0 <= i < |ls| ==> c !in ls[i]
    requires c != '\r' && c != '\n'
    ensures c !in HeaderText(ls)
    decreases |ls|
  {
    if ls != [] {
      HeaderTextChars(ls[1..], c);
      assert HeaderText(ls) == ls[0] + CRLF + HeaderText(ls[1..]);
    }
  }

  /** The header lines before the `Content-Length` line. */
  function LeadingLines(r: Response): seq<string> {
    [r.status] + (if r.contentType.Some? then [TYPE_FIELD + r.contentType.value] else [])
  }

  lemma LeadingLinesPlain(r: Response)
    requires WellFormed(r)
    ensures forall i :: 0 <= i < |LeadingLines(r)| ==> var l := LeadingLines(r)[i];
      l != [] && '\r' !in l && '\n' !in l && 'L' !in l
  {
    TypeFieldPlain();
    var ls := LeadingLines(r);
    forall i | 0 <= i < |ls|
      ensures PlainLine(ls[i])
    {
      if i > 0 {
        var ct := r.contentType.value;
        assert ls[i] == TYPE_FIELD + ct;
        assert forall k :: 0 <= k < |ls[i]| ==> ls[i][k] == if k < |TYPE_FIELD| then TYPE_FIELD[k] else ct[k - |TYPE_FIELD|];
      }
    }
  }

  lemma TypeFieldPlain() ensures PlainLine(TYPE_FIELD) {}

  lemma HeaderLinesPlain(r: Response)
    requires WellFormed(r)
    ensures forall i :: 0 <= i < |HeaderLines(r)| ==> var l := HeaderLines(r)[i];
      l != [] && '\r' !in l && '\n' !in l
  {
    var ls := HeaderLines(r);
    LeadingLinesPlain(r);
    assert ls == LeadingLines(r) + (if r.contentLength.Some? then [LENGTH_FIELD + Decimal(r.contentLength.value)] else []);
    forall i | 0 <= i < |ls|
      ensures ls[i] != [] && '\r' !in ls[i] && '\n' !in ls[i]
    {
      if i >= |LeadingLines(r)| {
        var d := Decimal(r.contentLength.value);
        assert ls[i] == LENGTH_FIELD + d;
        assert '\r' !in d && '\n' !in d by {
          assert forall k :: 0 <= k < |d| ==> IsDigit(d[k]);
        }
        assert '\r' !in LENGTH_FIELD && '\n' !in LENGTH_FIELD;
      }
    }
  }

  /** After header text without an empty line, the CRLF that follows it ends the header block. */
  lemma HeaderEndAfter(h: string, rest: string)
    requires |h| >= 2 && h[|h| - 2..] == CRLF
    requires forall j :: 0 <= j < |h| - 2 && h[j] == '\r' ==> h[j + 2] != '\r'
    ensures Find(h + CRLF + rest, HEADER_END, 0) == Some(|h| - 2)
  {
    var m := h + CRLF + rest;
    assert m[|h| - 2..|h| + 2] == h[|h| - 2..] + CRLF;
    forall j | 0 <= j < |h| - 2
      ensures !OccursAt(m, HEADER_END, j)
    {
      assert m[j] == h[j] && m[j + 2] == h[j + 2];
      assert m[j..j + 4][0] == m[j] && m[j..j + 4][2] == m[j + 2];
      assert HEADER_END[0] == '\r' && HEADER_END[2] == '\r';
    }
    FindFirst(m, HEADER_END, 0, |h| - 2);
  }

  /** The first empty line of a serialized response is the one before its body. */
  lemma SerializedHeaderEnd(r: Response)
    requires WellFormed(r)
    ensures var h := HeaderText(HeaderLines(r));
      Find(Serialized(r), HEADER_END, 0) == Some(|h| - 2)
    ensures MessageBody(Serialized(r)) == Some(r.body)
  {
    var h := HeaderText(HeaderLines(r));
    HeaderLinesPlain(r);
    HeaderTextNoBlank(HeaderLines(r));
    HeaderEndAfter(h, r.body);
    assert Serialized(r)[|h| + 2..] == r.body;
  }

  /** No field name occurs in a message without an `L`. */
  lemma NoLengthField(m: string)
    requires 'L' !in m
    ensures Find(m, LENGTH_FIELD, 0) == None
  {
    forall j | 0 <= j && j + 16 <= |m|
      ensures !OccursAt(m, LENGTH_FIELD, j)
    {
      assert m[j..j + 16][8] == m[j + 8];
      assert m[j..j + 16] != LENGTH_FIELD by {
        assert LENGTH_FIELD[8] == 'L';
      }
    }
  }

  /**
    A pattern placed after text that lacks one of its characters `c` (at offset
    `k`, with `c` absent from the pattern before `k`) is found first where it was placed.
   */
  lemma FoundAfter(a: string, p: string, rest: string, k: nat, c: char)
    requires k < |p| && p[k] == c && c !in a && c !in p[..k]
    ensures Find(a + p + rest, p, 0) == Some(|a|)
  {
    var m := a + p + rest;
    assert m[|a|..|a| + |p|] == p;
    forall j | 0 <= j < |a|
      ensures !OccursAt(m, p, j)
    {
      if j + k < |a| {
        assert m[j + k] == a[j + k];
      } else {
        assert m[j + k] == p[..k][j + k - |a|];
      }
      if j + |p| <= |m| {
        assert m[j..j + |p|][k] == m[j + k];
      }
    }
    FindFirst(m, p, 0, |a|);
  }

  /** A CRLF after a run of digits ends the run. */
  lemma CrlfAfterDigits(x: string, d: string, rest: string)
    requires AllDigits(d)
    ensures Find(x + d + CRLF + rest, CRLF, |x|) == Some(|x| + |d|)
  {
    var m := x + d + CRLF + rest;
    var e := |x| + |d|;
    assert m[e..e + 2] == CRLF;
    forall i | |x| <= i < e
      ensures !OccursAt(m, CRLF, i)
    {
      assert m[i] == d[i - |x|];
      assert m[i..i + 2][0] == m[i];
    }
    FindFirst(m, CRLF, |x|, e);
  }

  lemma LengthFieldFirst(a: string, tail: string)
    requires 'L' !in a
    ensures Find(a + LENGTH_FIELD + tail, LENGTH_FIELD, 0) == Some(|a|)
  {
    assert LENGTH_FIELD[8] == 'L' && 'L' !in LENGTH_FIELD[..8];
    FoundAfter(a, LENGTH_FIELD, tail, 8, 'L');
  }

  lemma LengthFieldParts(a: string, d: string, rest: string)
    ensures a + LENGTH_FIELD + d + CRLF + rest == a + LENGTH_FIELD + (d + CRLF + rest)
    ensures (a + LENGTH_FIELD + d + CRLF + rest)[|a| + |LENGTH_FIELD|..|a| + |LENGTH_FIELD| + |d|] == d
  {
    var m := a + LENGTH_FIELD + d + CRLF + rest;
    assert m == (a + LENGTH_FIELD) + d + (CRLF + rest);
  }

  /** A `Content-Length` line after `L`-free text is the first one, and its value ends at its CRLF. */
  lemma LengthFieldAt(a: string, d: string, rest: string)
    requires 'L' !in a && AllDigits(d)
    ensures Find(a + LENGTH_FIELD + d + CRLF + rest, LENGTH_FIELD, 0) == Some(|a|)
    ensures Find(a + LENGTH_FIELD + d + CRLF + rest, CRLF, |a| + |LENGTH_FIELD|) == Some(|a| + |LENGTH_FIELD| + |d|)
    ensures (a + LENGTH_FIELD + d + CRLF + rest)[|a| + |LENGTH_FIELD|..|a| + |LENGTH_FIELD| + |d|] == d
  {
    LengthFieldParts(a, d, rest);
    LengthFieldFirst(a, d + CRLF + rest);
    CrlfAfterDigits(a + LENGTH_FIELD, d, rest);
  }

  lemma LengthValueAt(m: string, pos: nat, d: string)
    requires Find(m, LENGTH_FIELD, 0) == Some(pos)
    requires Find(m, CRLF, pos + |LENGTH_FIELD|) == Some(pos + |LENGTH_FIELD| + |d|)
    requires m[pos + |LENGTH_FIELD|..pos + |LENGTH_FIELD| + |d|] == d
    ensures LengthValue(m) == Some(d)
  {
  }

  lemma LengthRead(m: string, d: string, n: int)
    requires LengthValue(m) == Some(d) && Stoi(d) == Some(n)
    ensures DeclaredLength(m) == Declared(n)
  {
  }

  /** A response with a declared length, as the text before its length line, that line, and the rest. */
  lemma DeclaredShape(r: Response)
    requires WellFormed(r) && r.contentLength.Some?
    ensures 'L' !in HeaderText(LeadingLines(r))
    ensures Serialized(r) == HeaderText(LeadingLines(r)) + LENGTH_FIELD + Decimal(r.contentLength.value) + CRLF + (CRLF + r.body)
  {
    var d := Decimal(r.contentLength.value);
    LeadingLinesPlain(r);
    HeaderTextChars(LeadingLines(r), 'L');
    HeaderTextSnoc(LeadingLines(r), LENGTH_FIELD + d);
    assert HeaderLines(r) == LeadingLines(r) + [LENGTH_FIELD + d];
  }

  /** A length line after `L`-free text declares the number it prints. */
  lemma DeclaredLengthOf(a: string, n: nat, rest: string)
    requires 'L' !in a && n <= INT_MAX
    ensures DeclaredLength(a + LENGTH_FIELD + Decimal(n) + CRLF + rest) == Declared(n)
  {
    var d := Decimal(n);
    var m := a + LENGTH_FIELD + d + CRLF + rest;
    LengthFieldAt(a, d, rest);
    LengthValueAt(m, |a|, d);
    StoiDecimal(n);
    LengthRead(m, d, n);
  }

  lemma AbsentLengthRead(r: Response)
    requires WellFormed(r) && r.contentLength.None?
    ensures DeclaredLength(Serialized(r)) == NoLength
  {
    var a := HeaderText(LeadingLines(r));
    LeadingLinesPlain(r);
    HeaderTextChars(LeadingLines(r), 'L');
    assert HeaderLines(r) == LeadingLines(r);
    var m := a + CRLF + r.body;
    assert Serialized(r) == m;
    NoLengthField(m);
  }

  /** The receiving rule reads back exactly the length a response declares, and finds none where it declares none. */
  lemma SerializedLength(r: Response)
    requires WellFormed(r)
    ensures DeclaredLength(Serialized(r)) == if r.contentLength.Some? then Declared(r.contentLength.value) else NoLength
  {
    if r.contentLength.Some? {
      DeclaredShape(r);
      DeclaredLengthOf(HeaderText(LeadingLines(r)), r.contentLength.value, CRLF + r.body);
    } else {
      AbsentLengthRead(r);
    }
  }

  /** A well-formed response is complete by the receiving rule exactly when its body is as long as it declares. */
  lemma SerializedProgress(r: Response)
    requires WellFormed(r)
    ensures ReadProgress(Serialized(r)) ==
      if r.contentLength.None? || |r.body| >= r.contentLength.value then Complete else Incomplete
  {
    SerializedHeaderEnd(r);
    SerializedLength(r);
    var h := HeaderText(HeaderLines(r));
    assert |Serialized(r)| - (|h| - 2 + 4) == |r.body|;
  }

  lemma OkPlain() ensures PlainLine(STATUS_OK) && PlainLine(TEXT_PLAIN) {}
  lemma ServerErrorPlain() ensures PlainLine(STATUS_SERVER_ERROR) {}
  lemma BadRequestPlain() ensures PlainLine(STATUS_BAD_REQUEST) {}

  lemma RepliesWellFormed(reply: Reply)
    requires HasDeclaredLength(reply)
    ensures WellFormed(ResponseAsWritten(reply).value) && WellFormed(ResponseFor(reply).value)
  {
    OkPlain();
    ServerErrorPlain();
    BadRequestPlain();
  }

  /**
    The handler's three fixed replies declare a `Content-Length` that differs
    from their body; by the handler's own receiving rule the 200 and 400
    replies never complete.
   */
  lemma AsWrittenLengthsWrong(reply: Reply)
    requires HasDeclaredLength(reply)
    ensures var r := ResponseAsWritten(reply).value;
      && DeclaredLength(Serialized(r)).Declared?
      && DeclaredLength(Serialized(r)).n != |r.body|
      && (reply != WriteFailed ==> ReadProgress(Serialized(r)) == Incomplete)
  {
    RepliesWellFormed(reply);
    var r := ResponseAsWritten(reply).value;
    SerializedLength(r);
    SerializedProgress(r);
  }

  /**
    Each corrected reply declares exactly the length of its body, is complete by
    the receiving rule, and its body reads back unchanged.
   */
  lemma RepliesFramed(reply: Reply)
    requires HasDeclaredLength(reply)
    ensures var r := ResponseFor(reply).value;
      && DeclaredLength(Serialized(r)) == Declared(|r.body|)
      && ReadProgress(Serialized(r)) == Complete
      && MessageBody(Serialized(r)) == Some(r.body)
  {
    RepliesWellFormed(reply);
    var r := ResponseFor(reply).value;
    SerializedLength(r);
    SerializedProgress(r);
    SerializedHeaderEnd(r);
  }
}
