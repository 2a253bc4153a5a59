/**
  How a non-2xx response becomes a typed error.

  `encoding/json` is not modelled: a `Body` carries its text together with what each of the
  client's struct decoders makes of that text, and the theorems hold whatever that is.
*/
module Errors {
  import opened Values

  datatype Sentinel = NotFound | Conflict | Auth | Query

  /** The fields the nested `{"error": {...}}` decoder fills. */
  datatype Envelope = Envelope(message: string, code: string, opIndex: Option<int>)

  /** The fields the flat fallback decoder fills. */
  datatype FlatEnvelope = FlatEnvelope(message: string, code: string)

  /**
    A response body: its text, and the outcome of decoding it as a nested error envelope, as
    a flat one, and as a transaction response.  `None` is a decoding error; a transaction
    response that decodes may still have no results array.
   */
  datatype Body = Body(
    text: string,
    nested: Option<Envelope>,
    flat: Option<FlatEnvelope>,
    txn: Option<Option<seq<Row>>>)

  /** The value of a `*ResponseError`. */
  datatype Failure = Failure(
    status: int, message: string, code: string, opIndex: Option<int>, sentinel: Option<Sentinel>)

  // ---- Text ----

  function Digits(n: nat): string {
    if n < 10 then ["0123456789"[n]] else Digits(n / 10) + ["0123456789"[n % 10]]
  }

  function DecimalText(n: int): string {
    if n < 0 then "-" + Digits(-n) else Digits(n)
  }

  /** The number a text of digits stands for, and the one a signed text stands for. */
  function ReadDigits(s: string): int {
    if s == "" then 0 else 10 * ReadDigits(s[..|s| - 1]) + (s[|s| - 1] as int - 0x30)
  }

  function ReadDecimal(s: string): int {
    if s != "" && s[0] == '-' then -ReadDigits(s[1..]) else ReadDigits(s)
  }

  lemma {:induction false} DigitsReadBack(n: nat)
    ensures Digits(n) != "" && ReadDigits(Digits(n)) == n
    ensures forall c | c in Digits(n) :: '0' <= c <= '9'
    ensures n > 0 ==> Digits(n)[0] != '0'
  {
    var table := "0123456789";
    assert forall d | 0 <= d < 10 :: table[d] as int == 0x30 + d;
    if n >= 10 {
      DigitsReadBack(n / 10);
      assert Digits(n)[..|Digits(n)| - 1] == Digits(n / 10);
    }
  }

  /** A status is printed as its decimal numeral, without leading zeros. */
  lemma DecimalReadsBack(n: int)
    ensures ReadDecimal(DecimalText(n)) == n
    ensures n > 0 ==> '1' <= DecimalText(n)[0] <= '9'
  {
    DigitsReadBack(if n < 0 then -n else n);
    assert n >= 0 ==> DecimalText(n)[0] in Digits(n);
    if n < 0 {
      assert DecimalText(n)[1..] == Digits(-n);
    }
  }

  /** Unicode white space, as `strings.TrimSpace` and `bytes.TrimSpace` cut it. */
  predicate IsSpace(c: char) {
    var r := c as int;
    || 0x09 <= r <= 0x0D || r == 0x20 || r == 0x85 || r == 0xA0 || r == 0x1680
    || 0x2000 <= r <= 0x200A || r == 0x2028 || r == 0x2029 || r == 0x202F || r == 0x205F || r == 0x3000
  }

  /** The white space of Unicode, code point by code point. */
  lemma WhiteSpace(c: char)
    ensures IsSpace(c) <==>
            c as int in {0x09, 0x0A, 0x0B, 0x0C, 0x0D, 0x20, 0x85, 0xA0, 0x1680,
                         0x2000, 0x2001, 0x2002, 0x2003, 0x2004, 0x2005, 0x2006, 0x2007, 0x2008, 0x2009, 0x200A,
                         0x2028, 0x2029, 0x202F, 0x205F, 0x3000}
  {
  }

  function TrimSpaceLeft(s: string): string {
    if s != "" && IsSpace(s[0]) then TrimSpaceLeft(s[1..]) else s
  }

  function TrimSpaceRight(s: string): string {
    if s != "" && IsSpace(s[|s| - 1]) then TrimSpaceRight(s[..|s| - 1]) else s
  }

  function TrimSpace(s: string): string {
    TrimSpaceRight(TrimSpaceLeft(s))
  }

  const MISSING := "not found:"

  /** The message text that turns any failure into a 404. */
  predicate NamesMissing(message: string) {
    MISSING <= TrimSpace(message)
  }

  lemma {:induction false} TrimSpaceRightKeeps(s: string, prefix: string)
    requires prefix != "" && !IsSpace(prefix[|prefix| - 1])
    ensures prefix <= TrimSpaceRight(s) <==> prefix <= s
  {
    if s != "" && IsSpace(s[|s| - 1]) {
      TrimSpaceRightKeeps(s[..|s| - 1], prefix);
    }
  }

  lemma {:induction false} TrimSpaceLeftSplits(s: string) returns (i: nat)
    ensures i <= |s| && TrimSpaceLeft(s) == s[i..]
    ensures forall j | 0 <= j < i :: IsSpace(s[j])
    ensures i < |s| ==> !IsSpace(s[i])
  {
    if s != "" && IsSpace(s[0]) {
      var k := TrimSpaceLeftSplits(s[1..]);
      i := k + 1;
      forall j | 0 <= j < i ensures IsSpace(s[j]) {
        assert j > 0 ==> s[j] == s[1..][j - 1];
      }
    } else {
      i := 0;
    }
  }

  /** Trimming leaves nothing exactly of a text that is all white space. */
  lemma TrimSpaceEmpty(s: string)
    ensures TrimSpace(s) == "" <==> forall i | 0 <= i < |s| :: IsSpace(s[i])
  {
    var k := TrimSpaceLeftSplits(s);
    if k < |s| {
      TrimSpaceRightKeeps(s[k..], [s[k]]);
      assert [s[k]] <= s[k..];
    }
  }

  /** Trimming both ends and testing the prefix asks only what stands after the leading
      white space. */
  lemma NamesMissingMeaning(message: string)
    ensures NamesMissing(message) <==>
            exists i | 0 <= i <= |message| ::
              "not found:" <= message[i..] && forall j | 0 <= j < i :: IsSpace(message[j])
  {
    var k := TrimSpaceLeftSplits(message);
    TrimSpaceRightKeeps(message[k..], MISSING);
    if i :| 0 <= i <= |message| && MISSING <= message[i..] && forall j | 0 <= j < i :: IsSpace(message[j]) {
      assert message[i] == MISSING[0];
      assert i == k;
    }
  }

  // ---- The error envelope ----

  predicate IsBlank(c: char) {
    c == ' ' || c == '\t' || c == '\n' || c == '\r'
  }

  /** The first character that is not blank opens a JSON object. */
  ghost predicate OpensObject(text: string) {
    exists i | 0 <= i < |text| :: text[i] == '{' && forall j | 0 <= j < i :: text[j] in " \t\n\r"
  }

  ghost function EnvelopeOf(body: Body): Option<Envelope> {
    if !OpensObject(body.text) then None
    else if body.nested.Some? && body.nested.value != Envelope("", "", None) then body.nested
    else if body.flat.Some? && body.flat.value != FlatEnvelope("", "") then
      Some(Envelope(body.flat.value.message, body.flat.value.code, None))
    else None
  }

  method DecodeErrorEnvelope(body: Body)
    returns (message: string, code: string, opIndex: Option<int>, ok: bool)
    ensures ok <==> EnvelopeOf(body).Some?
    ensures EnvelopeOf(body) == if ok then Some(Envelope(message, code, opIndex)) else None
  {
    message, code, opIndex, ok := "", "", None, false;
    if |body.text| == 0 {
      return;
    }
    var trimmed := body.text;
    ghost var skipped := 0;
    while |trimmed| > 0 && IsBlank(trimmed[0])
      invariant 0 <= skipped <= |body.text| && trimmed == body.text[skipped..]
      invariant forall j | 0 <= j < skipped :: IsBlank(body.text[j])
      decreases |trimmed|
    {
      trimmed := trimmed[1..];
      skipped := skipped + 1;
    }
    assert |trimmed| > 0 ==> trimmed[0] == body.text[skipped];
    if |trimmed| == 0 || trimmed[0] != '{' {
      assert !OpensObject(body.text);
      return;
    }
    assert OpensObject(body.text);
    if body.nested.Some? {
      var e := body.nested.value;
      if e.message != "" || e.code != "" || e.opIndex != None {
        return e.message, e.code, e.opIndex, true;
      }
    }
    if body.flat.Some? {
      var e := body.flat.value;
      if e.message != "" || e.code != "" {
        return e.message, e.code, None, true;
      }
    }
  }

  /** A body that starts with a byte-order mark is never read as an envelope, although the
      comment in the decoder says one is tolerated. */
  lemma ByteOrderMarkNotTolerated(body: Body)
    requires body.text != "" && body.text[0] as int == 0xFEFF
    ensures EnvelopeOf(body) == None
  {
    assert !IsBlank(body.text[0]);
  }

  // ---- Classification ----

  /** The documented class of a status. */
  function ClassOf(status: int): Sentinel {
    match status
    case 401 => Auth
    case 403 => Auth
    case 404 => NotFound
    case 409 => Conflict
    case _ => Query
  }

  lemma ClassOfMissing()
    ensures ClassOf(404) == NotFound
  {
  }

  function DefaultMessage(status: int): string {
    match ClassOf(status)
    case Auth => "authentication failed (" + DecimalText(status) + ")"
    case NotFound => "resource not found"
    case Conflict => "constraint violation"
    case Query => "server error (" + DecimalText(status) + ")"
  }

  lemma DefaultMessageIsNotMissing(status: int)
    ensures !NamesMissing(DefaultMessage(status))
  {
    var m := DefaultMessage(status);
    assert !IsSpace(m[0]) && m[0] != 'n';
    NamesMissingMeaning(m);
    hide NamesMissing, DefaultMessage;
    assert MISSING[0] == 'n';
    assert forall i | 0 <= i <= |m| && MISSING <= m[i..] :: i > 0 by {
      forall i | 0 <= i <= |m| && MISSING <= m[i..] ensures i > 0 {
        assert m[i..][0] == 'n';
      }
    }
  }

  /** The message shown: the server's own if it sent one, else the raw body, else a default. */
  ghost function MessageFor(status: int, body: Body): string {
    var sent := if EnvelopeOf(body).Some? then EnvelopeOf(body).value.message else body.text;
    if sent == "" then DefaultMessage(status) else sent
  }

  ghost function FailureFor(status: int, body: Body): Failure {
    var message := MessageFor(status, body);
    var e := EnvelopeOf(body);
    var final := if NamesMissing(message) then 404 else status;
    Failure(final, message, if e.Some? then e.value.code else "", if e.Some? then e.value.opIndex else None,
            Some(ClassOf(final)))
  }

  class ResponseError {
    var Status: int
    var Message: string
    var Code: string
    var OpIndex: Option<int>
    var sentinel: Option<Sentinel>

    constructor (status: int)
      ensures View() == Failure(status, "", "", None, None)
    {
      Status, Message, Code, OpIndex, sentinel := status, "", "", None, None;
    }

    function View(): Failure
      reads this
    {
      Failure(Status, Message, Code, OpIndex, sentinel)
    }

    function Error(): (text: string)
      reads this
      ensures text != "" && (Message != "" ==> text == Message)
      ensures Message == "" ==> "mongreldb: server error (" < text && text[|text| - 1] == ')'
    {
      if Message != "" then Message else "mongreldb: server error (" + DecimalText(Status) + ")"
    }

    function Unwrap(): Option<Sentinel>
      reads this
    {
      sentinel
    }
  }

  method NewResponseError(status: int, body: Body) returns (re: ResponseError)
    ensures fresh(re) && re.View() == FailureFor(status, body)
    ensures re.Error() == re.Message && re.Message != ""
    ensures re.Unwrap() == Some(ClassOf(re.Status))
  {
    hide TrimSpace, DecimalText, EnvelopeOf;
    re := new ResponseError(status);
    var message, code, opIndex, ok := DecodeErrorEnvelope(body);
    if ok {
      re.Message := message;
      re.Code := code;
      re.OpIndex := opIndex;
    } else if |body.text| > 0 {
      re.Message := body.text;
    }
    re.sentinel := Some(match status
                        case 401 => Auth
                        case 403 => Auth
                        case 404 => NotFound
                        case 409 => Conflict
                        case _ => Query);
    if re.Message == "" {
      re.Message := match status
        case 401 => "authentication failed (" + DecimalText(status) + ")"
        case 403 => "authentication failed (" + DecimalText(status) + ")"
        case 404 => "resource not found"
        case 409 => "constraint violation"
        case _ => "server error (" + DecimalText(status) + ")";
    }
    assert re.Message == MessageFor(status, body) && re.sentinel == Some(ClassOf(status));
    hide MessageFor, ClassOf;
    if MISSING <= TrimSpace(re.Message) {
      assert ClassOf(404) == NotFound by { ClassOfMissing(); }
      re.Status := 404;
      re.sentinel := Some(NotFound);
    }
  }

  /** The sentinel is always the class of the status reported, and there is always a message. */
  lemma FailureIsConsistent(status: int, body: Body)
    ensures var f := FailureFor(status, body);
            f.sentinel == Some(ClassOf(f.status)) && f.message != "" && (f.status == status || f.status == 404)
  {
  }

  /** What each failure wraps, and the status it reports.  The documented table holds except
      for one message: whatever the HTTP status, a message that says "not found:" reads as a
      404. */
  lemma SentinelTable(status: int, body: Body)
    ensures var f := FailureFor(status, body);
            var missing := NamesMissing(f.message);
            && (f.sentinel == Some(Auth) <==> status in {401, 403} && !missing)
            && (f.sentinel == Some(Conflict) <==> status == 409 && !missing)
            && (f.sentinel == Some(NotFound) <==> status == 404 || missing)
            && (f.sentinel == Some(Query) <==> status !in {401, 403, 404, 409} && !missing)
            && f.status == if missing then 404 else status
  {
    hide NamesMissing, MessageFor, EnvelopeOf;
  }

  /** The nested envelope says something, and the flat one does in its place. */
  ghost predicate NestedSpeaks(body: Body) {
    && OpensObject(body.text) && body.nested.Some?
    && (body.nested.value.message != "" || body.nested.value.code != "" || body.nested.value.opIndex != None)
  }

  ghost predicate FlatSpeaks(body: Body) {
    && !NestedSpeaks(body) && OpensObject(body.text) && body.flat.Some?
    && (body.flat.value.message != "" || body.flat.value.code != "")
  }

  /** What the server said: the nested envelope is preferred, then the flat one, then the raw
      text. */
  ghost function SentMessage(body: Body): string {
    if NestedSpeaks(body) then body.nested.value.message
    else if FlatSpeaks(body) then body.flat.value.message
    else body.text
  }

  /** What each failure says.  Only a nested envelope has an operation index, and where nothing
      was said the message tells the status. */
  lemma FailureText(status: int, body: Body)
    ensures FailureFor(status, body).code == (if NestedSpeaks(body) then body.nested.value.code
                                              else if FlatSpeaks(body) then body.flat.value.code else "")
    ensures FailureFor(status, body).opIndex == if NestedSpeaks(body) then body.nested.value.opIndex else None
    ensures SentMessage(body) != "" ==> FailureFor(status, body).message == SentMessage(body)
    ensures SentMessage(body) == "" ==>
              FailureFor(status, body).message ==
              (if status in {401, 403} then "authentication failed (" + DecimalText(status) + ")"
               else if status == 404 then "resource not found"
               else if status == 409 then "constraint violation"
               else "server error (" + DecimalText(status) + ")")
  {
    hide NamesMissing, OpensObject, DecimalText;
  }

  /** A failure keeps the class of its HTTP status exactly when that class is NotFound already
      or the message does not say "not found:". */
  lemma StatusTableHoldsUnlessMissing(status: int, body: Body)
    ensures FailureFor(status, body).sentinel == Some(match status
                                                      case 401 => Auth
                                                      case 403 => Auth
                                                      case 404 => NotFound
                                                      case 409 => Conflict
                                                      case _ => Query)
       <==> status == 404 || !NamesMissing(FailureFor(status, body).message)
  {
    SentinelTable(status, body);
    hide FailureFor, NamesMissing;
  }

  /** A 409 whose message says "not found:" does not read as a conflict. */
  lemma ConflictCanReadAsNotFound()
    ensures exists body: Body :: FailureFor(409, body).sentinel == Some(NotFound)
  {
    var body := Body("not found: parent row", None, None, None);
    assert body.text[0] == 'n';
    assert !OpensObject(body.text);
    assert MISSING <= body.text[0..];
    NamesMissingMeaning(body.text);
    assert FailureFor(409, body).sentinel == Some(NotFound);
  }
}
