/** The response envelope and the JSON-array builder shared by every
    chaincode of the library (common/msgResponse.go): the response codes
    and their descriptions, the success and error responses, and the
    rendering of a rich-query result as one JSON array. */
module MsgResponse {
  import opened Wrappers

  /** Peer response statuses. */
  const OK: int := 200
  const ERROR: int := 500

  /** Response codes. */
  const SUCCESS: string := "200"
  const ERR1: string := "AKC0001"
  const ERR2: string := "AKC0002"
  const ERR3: string := "AKC0003"
  const ERR4: string := "AKC0004"
  const ERR5: string := "AKC0005"
  const ERR6: string := "AKC0006"
  const ERR7: string := "AKC0007"
  const ERR8: string := "AKC0008"
  const ERR9: string := "AKC0009"
  const ERR10: string := "AKC0010"
  const ERR11: string := "AKC0011"
  const ERR12: string := "AKC0012"
  const ERR13: string := "AKC0013"
  const ERR14: string := "AKC0014"
  const ERR15: string := "AKC0015"
  const ERR16: string := "AKC0016"
  const ERR17: string := "AKC0017"
  const ERR18: string := "AKC0018"

  /** Every response code, in declaration order. */
  const Codes: seq<string> :=
    [SUCCESS, ERR1, ERR2, ERR3, ERR4, ERR5, ERR6, ERR7, ERR8, ERR9,
     ERR10, ERR11, ERR12, ERR13, ERR14, ERR15, ERR16, ERR17, ERR18]

  /** The human-readable description of each response code. */
  const ResCodeDict: map<string, string> := map[
    "200" := "OK",
    "AKC0001" := "Cannot Update User Information!",
    "AKC0002" := "Incorrect number of arguments!",
    "AKC0003" := "Convert Json fail!",
    "AKC0004" := "Get data fail!",
    "AKC0005" := "Insert data fail!",
    "AKC0006" := "Public key error!",
    "AKC0007" := "ParsePKCS1PublicKey error!",
    "AKC0008" := "Verify error!",
    "AKC0009" := "Only signed once!",
    "AKC0010" := "Not Enough Quorum",
    "AKC0011" := "Only Commit once!",
    "AKC0012" := "Proposal Commit not exist!",
    "AKC0013" := "Proposal ID not exist!",
    "AKC0014" := "Admin ID not exist!",
    "AKC0015" := "Admin ID not Active!",
    "AKC0016" := "Proposal Rejected!",
    "AKC0017" := "You have confirmed you cannot reject!",
    "AKC0018" := "Only reject once!"
  ]

  /** The dictionary describes exactly the declared codes, and the codes are
      pairwise distinct. */
  lemma EveryCodeDescribed()
    ensures ResCodeDict.Keys == set c | c in Codes
    ensures forall i, j :: 0 <= i < j < |Codes| ==> Codes[i] != Codes[j]
  {
  }

  /** A peer response: status, payload bytes (as text, "" for none) and
      message. */
  datatype Response = Response(status: int, payload: string, message: string)

  datatype ResponseSuccess = ResponseSuccess(resCode: string, msg: string, payload: string)

  datatype ResponseError = ResponseError(resCode: string, msg: string)

  /** A success response: an empty payload is sent as the empty JSON array,
      and the message repeats the payload. */
  function RespondSuccess(res: ResponseSuccess): (r: Response)
    ensures r.status == OK
    ensures r.payload == r.message
    ensures r.payload != ""
    ensures res.payload != "" ==> r.payload == res.payload
  {
    var payload := if res.payload == "" then "[]" else res.payload;
    Response(OK, payload, payload)
  }

  /** The parts of the error envelope `{"status":"<code>", "msg":"<msg>"}`
      around its two fields. */
  const Open: string := "{\"status\":\""
  const Between: string := "\"" + Middle
  const Close: string := "\"" + "}"

  /** The text between the two fields after the code's closing quotation
      mark. */
  const Middle: string := ", \"msg\":\""

  /** The error envelope with both fields written in as they are given. */
  function Envelope(code: string, msg: string): string {
    Open + code + Between + msg + Close
  }

  /** An error response: no payload, and the envelope built from the code
      and message without any escaping. */
  function RespondError(err: ResponseError): (r: Response)
    ensures r.status == ERROR && r.payload == ""
    ensures r.message == Envelope(err.resCode, err.msg)
  {
    Response(ERROR, "", Open + err.resCode + Between + err.msg + Close)
  }

  /** A success response and an error response are told apart by status. */
  lemma SuccessIsNotError(res: ResponseSuccess, err: ResponseError)
    ensures RespondSuccess(res).status != RespondError(err).status
    ensures RespondSuccess(res).payload != RespondError(err).payload
  {
  }

  // ---------------------------------------------------------------------
  // JSON strings (section 7 of RFC 8259)
  // ---------------------------------------------------------------------

  /** The lower-case hexadecimal digit of n. */
  function HexDigit(n: nat): (c: char)
    requires n < 16
    ensures HexValue(c) == Some(n)
  {
    if n < 10 then ('0' as int + n) as char else ('a' as int + n - 10) as char
  }

  /** The value of a hexadecimal digit in either case. */
  function HexValue(c: char): (r: Option<nat>)
    ensures r.Some? ==> r.value < 16
  {
    if '0' <= c <= '9' then Some(c as int - '0' as int)
    else if 'a' <= c <= 'f' then Some(c as int - 'a' as int + 10)
    else if 'A' <= c <= 'F' then Some(c as int - 'A' as int + 10)
    else None
  }

  /** The code unit written by four hexadecimal digits. */
  function Hex4(s: string): (r: Option<nat>)
    requires |s| >= 4
    ensures r.Some? ==> r.value < 0x1_0000
  {
    match (HexValue(s[0]), HexValue(s[1]), HexValue(s[2]), HexValue(s[3]))
    case (Some(a), Some(b), Some(c), Some(d)) => Some(((a * 16 + b) * 16 + c) * 16 + d)
    case _ => None
  }

  /** How one character is written inside a JSON string: the quotation
      mark, the reverse solidus and the control characters are escaped, and
      every other character stands for itself. */
  function EscapeChar(c: char): (r: string)
    ensures r != []
  {
    if c == '"' then "\\\""
    else if c == '\\' then "\\\\"
    else if c < ' ' then "\\u00" + [HexDigit(c as int / 16), HexDigit(c as int % 16)]
    else [c]
  }

  /** The body of a JSON string holding exactly s. */
  function Escape(s: string): (r: string)
    ensures |r| >= |s|
  {
    if s == [] then "" else EscapeChar(s[0]) + Escape(s[1..])
  }

  /** The character denoted by an escape sequence, given the text after
      the reverse solidus, and the text after the sequence. A `\u` escape
      naming a surrogate is refused: surrogate pairs are not read. */
  function Unescape(s: string): (r: Option<(char, string)>)
    ensures r.Some? ==> |r.value.1| < |s|
  {
    if s == [] then None
    else if s[0] == '"' || s[0] == '\\' || s[0] == '/' then Some((s[0], s[1..]))
    else if s[0] == 'b' then Some(('\U{8}', s[1..]))
    else if s[0] == 'f' then Some(('\U{C}', s[1..]))
    else if s[0] == 'n' then Some(('\n', s[1..]))
    else if s[0] == 'r' then Some(('\r', s[1..]))
    else if s[0] == 't' then Some(('\t', s[1..]))
    else if s[0] == 'u' && |s| >= 5 then
      match Hex4(s[1..5])
      case Some(n) =>
        if 0xD800 <= n < 0xE000 then None else Some((n as char, s[5..]))
      case None => None
    else None
  }

  /** Reads the body of a JSON string up to its closing quotation mark:
      the characters it denotes and the text after the quotation mark.
      None for an unterminated string, a bad escape or a raw control
      character. */
  function ReadString(s: string): (r: Option<(string, string)>)
    ensures r.Some? ==> |r.value.1| < |s|
    decreases |s|
  {
    if s == [] then None
    else if s[0] == '"' then Some(("", s[1..]))
    else if s[0] == '\\' then
      match Unescape(s[1..])
      case None => None
      case Some((c, rest)) =>
        match ReadString(rest)
        case None => None
        case Some((t, after)) => Some(([c] + t, after))
    else if s[0] < ' ' then None
    else
      match ReadString(s[1..])
      case None => None
      case Some((t, after)) => Some(([s[0]] + t, after))
  }

  /** Reading an escaped character gives that character back. */
  lemma ReadEscapedChar(c: char, t: string)
    ensures ReadString(EscapeChar(c) + t) ==
              match ReadString(t)
              case None => None
              case Some((u, after)) => Some(([c] + u, after))
  {
    var s := EscapeChar(c) + t;
    if c == '"' || c == '\\' {
      assert s[0] == '\\' && s[1..] == [c] + t;
      assert Unescape(s[1..]) == Some((c, t));
    } else if c < ' ' {
      var hi, lo := c as int / 16, c as int % 16;
      assert s == "\\u00" + [HexDigit(hi), HexDigit(lo)] + t;
      assert s[1..][1..5] == ['0', '0', HexDigit(hi), HexDigit(lo)];
      assert Hex4(s[1..][1..5]) == Some(c as int);
      assert s[1..][5..] == t;
      assert Unescape(s[1..]) == Some((c, t));
    } else {
      assert s[0] == c && s[1..] == t;
    }
  }

  /** Escaping then reading a JSON string gives back the original text and
      the text after the closing quotation mark. */
  lemma {:induction false} ReadEscape(x: string, rest: string)
    ensures ReadString(Escape(x) + "\"" + rest) == Some((x, rest))
  {
    if x == [] {
      assert Escape(x) + "\"" + rest == "\"" + rest;
    } else {
      ReadEscape(x[1..], rest);
      assert Escape(x) + "\"" + rest == EscapeChar(x[0]) + (Escape(x[1..]) + "\"" + rest);
      ReadEscapedChar(x[0], Escape(x[1..]) + "\"" + rest);
      assert [x[0]] + x[1..] == x;
    }
  }

  /** Text that JSON strings can hold as is: no quotation mark, reverse
      solidus or control character. */
  predicate Plain(s: string) {
    forall i :: 0 <= i < |s| ==> s[i] != '"' && s[i] != '\\' && s[i] >= ' '
  }

  /** Escaping leaves plain text unchanged. */
  lemma {:induction false} EscapePlain(s: string)
    requires Plain(s)
    ensures Escape(s) == s
  {
    if s != [] {
      assert Plain(s[1..]) by {
        forall i | 0 <= i < |s[1..]| ensures s[1..][i] != '"' && s[1..][i] != '\\' && s[1..][i] >= ' ' {
          assert s[1..][i] == s[i + 1];
        }
      }
      EscapePlain(s[1..]);
      assert [s[0]] + s[1..] == s;
    }
  }

  // ---------------------------------------------------------------------
  // Reading the error envelope back
  // ---------------------------------------------------------------------

  /** Reads an error envelope back into its code and message, decoding the
      two JSON strings. */
  function ParseEnvelope(m: string): (r: Option<ResponseError>) {
    if |m| < |Open| || m[..|Open|] != Open then None
    else
      match ReadString(m[|Open|..])
      case None => None
      case Some((code, rest)) =>
        if |rest| < |Middle| || rest[..|Middle|] != Middle then None
        else
          match ReadString(rest[|Middle|..])
          case None => None
          case Some((msg, after)) =>
            if after == "}" then Some(ResponseError(code, msg)) else None
  }

  /** An error response whose two fields are escaped as JSON strings. */
  function RespondErrorEscaped(err: ResponseError): (r: Response)
    ensures r.status == ERROR && r.payload == ""
    ensures ParseEnvelope(r.message) == Some(err)
  {
    EnvelopeRoundTrip(err.resCode, err.msg);
    Response(ERROR, "", Envelope(Escape(err.resCode), Escape(err.msg)))
  }

  /** The escaped envelope reads back as the code and message it was built
      from. */
  lemma EnvelopeRoundTrip(code: string, msg: string)
    ensures ParseEnvelope(Envelope(Escape(code), Escape(msg))) == Some(ResponseError(code, msg))
  {
    var tail := Escape(msg) + "\"" + "}";
    var afterCode := Middle + tail;
    var body := Escape(code) + "\"" + afterCode;
    EnvelopeParts(Escape(code), Escape(msg));
    Split(Open, body);
    ReadEscape(code, afterCode);
    Split(Middle, tail);
    ReadEscape(msg, "}");
  }

  /** The envelope as the reader takes it apart: the opening text, the
      code and its closing quotation mark, the middle text, the message and
      its closing quotation mark and brace. */
  lemma EnvelopeParts(code: string, msg: string)
    ensures Envelope(code, msg) == Open + (code + "\"" + (Middle + (msg + "\"" + "}")))
  {
    assert msg + Close == msg + "\"" + "}";
    assert code + Between == code + "\"" + Middle;
  }

  lemma Split(a: string, b: string)
    ensures (a + b)[..|a|] == a && (a + b)[|a|..] == b
  {
  }

  /** Distinct errors give distinct escaped envelopes. */
  lemma EscapedEnvelopeInjective(a: ResponseError, b: ResponseError)
    requires RespondErrorEscaped(a).message == RespondErrorEscaped(b).message
    ensures a == b
  {
  }

  /** With plain fields the unescaped envelope is already well formed and
      reads back as its code and message. */
  lemma PlainEnvelopeRoundTrip(err: ResponseError)
    requires Plain(err.resCode) && Plain(err.msg)
    ensures ParseEnvelope(RespondError(err).message) == Some(err)
  {
    EscapePlain(err.resCode);
    EscapePlain(err.msg);
    EnvelopeRoundTrip(err.resCode, err.msg);
  }

  /** Without escaping, two different errors give the same message: a
      quotation mark in the code can forge the message field. */
  lemma RespondErrorAmbiguous()
    ensures var a := ResponseError("a\", \"msg\":\"b", "c");
            var b := ResponseError("a", "b\", \"msg\":\"c");
            a != b && RespondError(a).message == RespondError(b).message
  {
    var a := ResponseError("a\", \"msg\":\"b", "c");
    var b := ResponseError("a", "b\", \"msg\":\"c");
    assert a.resCode != b.resCode by { assert |a.resCode| != |b.resCode|; }
    assert Envelope(a.resCode, a.msg) == Envelope(b.resCode, b.msg);
  }

  // ---------------------------------------------------------------------
  // Rich-query results as one JSON array
  // ---------------------------------------------------------------------

  /** The values of a query's rows in order, or the error of the first row
      that could not be read. */
  function Values<E>(items: seq<Result<string, E>>): (r: Result<seq<string>, E>)
    ensures r.Ok? ==> |r.value| == |items|
    ensures r.Ok? ==> forall i :: 0 <= i < |items| ==> items[i] == Ok(r.value[i])
  {
    if items == [] then Ok([])
    else if items[0].Err? then Err(items[0].error)
    else
      match Values(items[1..])
      case Err(e) => Err(e)
      case Ok(vs) => Ok([items[0].value] + vs)
  }

  /** The members separated by commas. */
  function Join(xs: seq<string>): string {
    if xs == [] then ""
    else if |xs| == 1 then xs[0]
    else xs[0] + "," + Join(xs[1..])
  }

  /** Appending a member adds a comma only when members were written
      already. */
  lemma {:induction false} JoinSnoc(xs: seq<string>, x: string)
    ensures Join(xs + [x]) == if xs == [] then x else Join(xs) + "," + x
  {
    if xs == [] {
      assert xs + [x] == [x];
    } else if |xs| == 1 {
      assert (xs + [x])[1..] == [x];
    } else {
      assert (xs + [x])[1..] == xs[1..] + [x];
      JoinSnoc(xs[1..], x);
    }
  }

  /** The array of the query's values: "[", the values joined by commas,
      "]"; the empty result is "[]". Any error is returned instead. */
  function QueryArray<E>(query: Result<seq<Result<string, E>>, E>): (r: Result<string, E>)
    ensures query.Ok? && query.value == [] ==> r == Ok("[]")
    ensures query.Err? ==> r == Err(query.error)
  {
    match query
    case Err(e) => Err(e)
    case Ok(items) =>
      match Values(items)
      case Err(e) => Err(e)
      case Ok(vs) => assert "[" + Join([]) + "]" == "[]"; Ok("[" + Join(vs) + "]")
  }

  lemma {:induction false} ValuesExtend<E>(items: seq<Result<string, E>>, i: nat)
    requires i < |items| && items[i].Ok? && Values(items[..i]).Ok?
    ensures Values(items[..i + 1]) == Ok(Values(items[..i]).value + [items[i].value])
  {
    if i > 0 {
      assert items[..i + 1][1..] == items[1..][..i];
      assert items[..i][1..] == items[1..][..i - 1];
      assert items[..i][0] == items[0] && items[..i + 1][0] == items[0];
      assert items[1..][i - 1] == items[i];
      ValuesExtend(items[1..], i - 1);
      var vs := Values(items[1..][..i - 1]).value;
      assert Values(items[..i]).value == [items[0].value] + vs;
      assert Values(items[..i + 1]).value == [items[0].value] + (vs + [items[i].value]);
      assert [items[0].value] + (vs + [items[i].value]) == ([items[0].value] + vs) + [items[i].value];
    } else {
      assert items[..0] == [] && items[..1][1..] == [];
      assert Values(items[..1][1..]) == Ok([]);
      assert items[..1][0] == items[0];
      assert Values(items[..1]) == Ok([items[0].value] + []);
      assert Values(items[..0]) == Ok([]);
      assert [items[0].value] + [] == [] + [items[0].value];
    }
  }

  lemma {:induction false} ValuesStop<E>(items: seq<Result<string, E>>, i: nat)
    requires i < |items| && items[i].Err? && Values(items[..i]).Ok?
    ensures Values(items) == Err(items[i].error)
  {
    if i > 0 {
      assert items[..i][1..] == items[1..][..i - 1];
      ValuesStop(items[1..], i - 1);
    }
  }

  /** Runs the query and writes its rows into one buffer, a comma before
      every member but the first. The query's error or the first row's
      error is returned with no partial output. */
  method GetQueryResultForQueryString<E>(query: Result<seq<Result<string, E>>, E>)
    returns (r: Result<string, E>)
    ensures r == QueryArray(query)
  {
    if query.Err? {
      return Err(query.error);
    }
    var items := query.value;
    var buffer := "[";
    var written := false;
    var i := 0;
    while i < |items|
      invariant 0 <= i <= |items|
      invariant Values(items[..i]).Ok?
      invariant written <==> i > 0
      invariant buffer == "[" + Join(Values(items[..i]).value)
    {
      if items[i].Err? {
        ValuesStop(items, i);
        return Err(items[i].error);
      }
      ValuesExtend(items, i);
      JoinSnoc(Values(items[..i]).value, items[i].value);
      if written {
        buffer := buffer + ",";
      }
      buffer := buffer + items[i].value;
      written := true;
      i := i + 1;
    }
    assert items[..i] == items;
    buffer := buffer + "]";
    return Ok(buffer);
  }
}
