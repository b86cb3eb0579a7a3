/**
  * The per-connection request line reader: it accumulates the incoming
  * chunks in a buffer capped at 1024 characters and, once the buffer ends in
  * CRLF, trims it and validates it as a gemini URL.
  */
module Requests {
  import opened Common
  import opened Text

  const MaxUriLength := 1024

  const TooLong := "URI Too Long"
  const BadUri := "Bad URI"
  const SchemeRequired := "Absolute URI Reuired"
  const UserInfoForbidden := "URI must not contain userinfo part"
  const HashForbidden := "URI must not contain #hash part"

  /** The fields of a WHATWG `URL` record that the server reads. */
  datatype Url = Url(
    protocol: string,
    username: string,
    password: string,
    hash: string,
    hostname: string,
    pathname: string)

  /**
    * The URL parser, supplied from outside: `None` where `URL.canParse` is
    * false, otherwise the record `URL.parse` returns.
    */
  type UrlParser = string -> Option<Url>

  /** What one call emits: nothing, an 'error' event with its message, or a 'success' event with the URL. */
  datatype Event = NoEvent | Error(message: string) | Success(url: Url)

  /** The four conditions a request must meet to be accepted. */
  predicate Acceptable(u: Url)
  {
    u.protocol == "gemini:" && u.username == "" && u.password == "" && u.hash == ""
  }

  /** The validation cascade of `validateURL`: parse, scheme, userinfo, fragment, in that order. */
  function ValidateURL(parsed: Option<Url>): (e: Event)
    ensures e != NoEvent
    ensures e.Success? <==> parsed.Some? && Acceptable(parsed.value)
    ensures e.Success? ==> e.url == parsed.value
    ensures e == Error(BadUri) <==> parsed.None?
    ensures e == Error(SchemeRequired) <==> parsed.Some? && parsed.value.protocol != "gemini:"
    ensures e == Error(UserInfoForbidden) <==>
      parsed.Some? && parsed.value.protocol == "gemini:"
      && (parsed.value.username != "" || parsed.value.password != "")
    ensures e == Error(HashForbidden) <==>
      parsed.Some? && parsed.value.protocol == "gemini:"
      && parsed.value.username == "" && parsed.value.password == "" && parsed.value.hash != ""
  {
    match parsed
    case None => Error(BadUri)
    case Some(u) =>
      if u.protocol != "gemini:" then Error(SchemeRequired)
      else if u.username != "" || u.password != "" then Error(UserInfoForbidden)
      else if u.hash != "" then Error(HashForbidden)
      else Success(u)
  }

  /** The pair (new buffer, event) that `addRequestChunk` produces from the old buffer and a chunk. */
  function Accept(buffer: string, chunk: string, parse: UrlParser): (r: (string, Event))
    ensures r.1 == Error(TooLong) <==> |buffer| + |chunk| > MaxUriLength
    ensures r.1 == Error(TooLong) ==> r.0 == buffer
    ensures r.1 == NoEvent ==> r.0 == buffer + chunk
    ensures r.1 != NoEvent && r.1 != Error(TooLong) ==> r.0 == Trim(buffer + chunk)
  {
    if |buffer| + |chunk| > MaxUriLength then (buffer, Error(TooLong))
    else
      var joined := buffer + chunk;
      if EndsWith(joined, "\r\n") then
        var trimmed := Trim(joined);
        (trimmed, ValidateURL(parse(trimmed)))
      else (joined, NoEvent)
  }

  /** A chunk that would take the buffer past the cap is refused and leaves the buffer as it was. */
  lemma TooLongLeavesBuffer(buffer: string, chunk: string, parse: UrlParser)
    requires |buffer| + |chunk| > MaxUriLength
    ensures Accept(buffer, chunk, parse) == (buffer, Error(TooLong))
  {
  }

  /** The buffer never grows past the cap. */
  lemma BufferBounded(buffer: string, chunk: string, parse: UrlParser)
    requires |buffer| <= MaxUriLength
    ensures |Accept(buffer, chunk, parse).0| <= MaxUriLength
  {
  }

  /**
    * Validation runs exactly when the appended buffer ends in CRLF; the buffer
    * then holds the trimmed line and no longer ends in CRLF.
    */
  lemma ValidationOnlyOnCrlf(buffer: string, chunk: string, parse: UrlParser)
    requires |buffer| + |chunk| <= MaxUriLength
    ensures Accept(buffer, chunk, parse).1 != NoEvent <==> EndsWith(buffer + chunk, "\r\n")
    ensures !EndsWith(buffer + chunk, "\r\n") ==> Accept(buffer, chunk, parse).0 == buffer + chunk
    ensures EndsWith(buffer + chunk, "\r\n") ==>
      Accept(buffer, chunk, parse).0 == Trim(buffer + chunk)
      && !EndsWith(Accept(buffer, chunk, parse).0, "\r\n")
  {
    var t := Trim(buffer + chunk);
    TrimShape(buffer + chunk);
    if t != "" {
      assert t[|t| - 1] != '\n';
      assert |t| >= 2 ==> t[|t| - 2..][1] == t[|t| - 1];
    }
  }

  /**
    * A call emits 'success' exactly when the chunk fits, completes a CRLF line,
    * and the trimmed line parses to an acceptable gemini URL; the URL emitted
    * is the parsed one.
    */
  lemma SuccessIff(buffer: string, chunk: string, parse: UrlParser)
    ensures Accept(buffer, chunk, parse).1.Success? <==>
      |buffer| + |chunk| <= MaxUriLength && EndsWith(buffer + chunk, "\r\n")
      && parse(Trim(buffer + chunk)).Some? && Acceptable(parse(Trim(buffer + chunk)).value)
    ensures Accept(buffer, chunk, parse).1.Success? ==>
      Accept(buffer, chunk, parse).1.url == parse(Trim(buffer + chunk)).value
  {
  }

  /** The reader of one connection. */
  class RequestReader {
    var buffer: string

    ghost predicate Valid()
      reads this
    {
      |buffer| <= MaxUriLength
    }

    constructor()
      ensures Valid() && buffer == ""
    {
      buffer := "";
    }

    /** `addRequestChunk`: append (or refuse) the chunk and validate a completed line. */
    method AddRequestChunk(chunk: string, parse: UrlParser) returns (e: Event)
      requires Valid()
      modifies this
      ensures Valid()
      ensures (buffer, e) == Accept(old(buffer), chunk, parse)
    {
      if |buffer| + |chunk| > MaxUriLength {
        return Error(TooLong);
      }
      buffer := buffer + chunk;
      e := NoEvent;
      if EndsWith(buffer, "\r\n") {
        buffer := Trim(buffer);
        e := ValidateURL(parse(buffer));
      }
    }
  }
}
