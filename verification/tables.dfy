/** `src/method.rs` and `src/status_code.rs`: the two enumerations and their texts. */
module Tables {
  import opened Bytes

  datatype HttpMethod = GET | POST | PUT | DELETE | PATCH | CONNECT | OPTIONS | TRACE | HEAD

  /** `HttpMethod::as_str`. */
  function MethodText(m: HttpMethod): (r: bytes)
    ensures 3 <= |r| <= 7 && forall i :: 0 <= i < |r| ==> 65 <= r[i] <= 90
  {
    match m
    case GET => Ascii("GET")
    case POST => Ascii("POST")
    case PUT => Ascii("PUT")
    case DELETE => Ascii("DELETE")
    case PATCH => Ascii("PATCH")
    case CONNECT => Ascii("CONNECT")
    case OPTIONS => Ascii("OPTIONS")
    case TRACE => Ascii("TRACE")
    case HEAD => Ascii("HEAD")
  }

  /** `HttpMethod::try_from`. */
  function MethodOf(text: bytes): (r: Option<HttpMethod>)
    ensures r.Some? ==> MethodText(r.value) == text
  {
    if text == Ascii("GET") then Some(GET)
    else if text == Ascii("POST") then Some(POST)
    else if text == Ascii("PUT") then Some(PUT)
    else if text == Ascii("DELETE") then Some(DELETE)
    else if text == Ascii("PATCH") then Some(PATCH)
    else if text == Ascii("HEAD") then Some(HEAD)
    else if text == Ascii("OPTIONS") then Some(OPTIONS)
    else if text == Ascii("TRACE") then Some(TRACE)
    else if text == Ascii("CONNECT") then Some(CONNECT)
    else None
  }

  lemma MethodTextsDiffer()
    ensures forall m: HttpMethod, n: HttpMethod :: MethodText(m) == MethodText(n) ==> m == n
  {
    forall m: HttpMethod, n: HttpMethod | m != n ensures MethodText(m) != MethodText(n) {
      var a, b := MethodText(m), MethodText(n);
      assert |a| != |b| || a[0] != b[0];
    }
  }

  /** Parsing undoes printing. */
  lemma MethodRoundTrip(m: HttpMethod)
    ensures MethodOf(MethodText(m)) == Some(m)
  {
    MethodTextsDiffer();
  }

  newtype u16 = n: int | 0 <= n < 0x1_0000

  datatype StatusCode =
    | Continue | SwitchingProtocols
    | OK | Created | Accepted | NonAuthoritativeInformation | NoContent | ResetContent | PartialContent
    | MultipleChoices | MovedPermanently | Found | SeeOther | NotModified | UseProxy | TemporaryRedirect
    | BadRequest | Unauthorized | PaymentRequired | Forbidden | NotFound | MethodNotAllowed | NotAcceptable
    | ProxyAuthenticationRequired | RequestTimeout | Conflict | Gone | LengthRequired | PreconditionFailed
    | RequestEntityTooLarge | RequestUriTooLong | UnsupportedMediaType | RequestedRangeNotSatisfiable
    | ExpectationFailed
    | InternalServerError | NotImplemented | BadGateway | ServiceUnavailable | GatewayTimeout
    | HttpVersionNotSupported
    | Other(code: u16)

  /** `StatusCode::as_u16`. */
  function StatusNumber(s: StatusCode): u16 {
    match s
    case Continue => 100
    case SwitchingProtocols => 101
    case OK => 200
    case Created => 201
    case Accepted => 202
    case NonAuthoritativeInformation => 203
    case NoContent => 204
    case ResetContent => 205
    case PartialContent => 206
    case MultipleChoices => 300
    case MovedPermanently => 301
    case Found => 302
    case SeeOther => 303
    case NotModified => 304
    case UseProxy => 305
    case TemporaryRedirect => 307
    case BadRequest => 400
    case Unauthorized => 401
    case PaymentRequired => 402
    case Forbidden => 403
    case NotFound => 404
    case MethodNotAllowed => 405
    case NotAcceptable => 406
    case ProxyAuthenticationRequired => 407
    case RequestTimeout => 408
    case Conflict => 409
    case Gone => 410
    case LengthRequired => 411
    case PreconditionFailed => 412
    case RequestEntityTooLarge => 413
    case RequestUriTooLong => 414
    case UnsupportedMediaType => 415
    case RequestedRangeNotSatisfiable => 416
    case ExpectationFailed => 417
    case InternalServerError => 500
    case NotImplemented => 501
    case BadGateway => 502
    case ServiceUnavailable => 503
    case GatewayTimeout => 504
    case HttpVersionNotSupported => 505
    case Other(code) => code
  }

  /** `StatusCode::from(u16)`. */
  function StatusOf(n: u16): StatusCode {
    if n == 100 then Continue
    else if n == 101 then SwitchingProtocols
    else if n == 200 then OK
    else if n == 201 then Created
    else if n == 202 then Accepted
    else if n == 203 then NonAuthoritativeInformation
    else if n == 204 then NoContent
    else if n == 205 then ResetContent
    else if n == 206 then PartialContent
    else if n == 300 then MultipleChoices
    else if n == 301 then MovedPermanently
    else if n == 302 then Found
    else if n == 303 then SeeOther
    else if n == 304 then NotModified
    else if n == 305 then UseProxy
    else if n == 307 then TemporaryRedirect
    else if n == 400 then BadRequest
    else if n == 401 then Unauthorized
    else if n == 402 then PaymentRequired
    else if n == 403 then Forbidden
    else if n == 404 then NotFound
    else if n == 405 then MethodNotAllowed
    else if n == 406 then NotAcceptable
    else if n == 407 then ProxyAuthenticationRequired
    else if n == 408 then RequestTimeout
    else if n == 409 then Conflict
    else if n == 410 then Gone
    else if n == 411 then LengthRequired
    else if n == 412 then PreconditionFailed
    else if n == 413 then RequestEntityTooLarge
    else if n == 414 then RequestUriTooLong
    else if n == 415 then UnsupportedMediaType
    else if n == 416 then RequestedRangeNotSatisfiable
    else if n == 417 then ExpectationFailed
    else if n == 500 then InternalServerError
    else if n == 501 then NotImplemented
    else if n == 502 then BadGateway
    else if n == 503 then ServiceUnavailable
    else if n == 504 then GatewayTimeout
    else if n == 505 then HttpVersionNotSupported
    else Other(n)
  }

  lemma LowStatusRoundTrip(s: StatusCode)
    requires !s.Other? && StatusNumber(s) < 400
    ensures StatusOf(StatusNumber(s)) == s
  {
  }

  lemma HighStatusRoundTrip(s: StatusCode)
    requires !s.Other? && StatusNumber(s) >= 400
    ensures StatusOf(StatusNumber(s)) == s
  {
  }

  lemma NamedStatusRoundTrip(s: StatusCode)
    requires !s.Other?
    ensures StatusOf(StatusNumber(s)) == s
  {
    hide StatusOf, StatusNumber;
    if StatusNumber(s) < 400 {
      LowStatusRoundTrip(s);
    } else {
      HighStatusRoundTrip(s);
    }
  }

  /** A status survives the trip through its number exactly unless it is `Other` of a named number. */
  lemma StatusRoundTrip(s: StatusCode)
    ensures StatusNumber(StatusOf(StatusNumber(s))) == StatusNumber(s)
    ensures StatusOf(StatusNumber(s)) == s <==> (s.Other? ==> StatusOf(s.code).Other?)
  {
    if !s.Other? {
      NamedStatusRoundTrip(s);
    }
  }

  /** `StatusCode::text`. */
  function Reason(s: StatusCode): string {
    match s
    case Continue => "Continue"
    case SwitchingProtocols => "Switching Protocols"
    case OK => "OK"
    case Created => "Created"
    case Accepted => "Accepted"
    case NonAuthoritativeInformation => "Non-Authoritative Information"
    case NoContent => "No Content"
    case ResetContent => "Reset Content"
    case PartialContent => "Partial Content"
    case MultipleChoices => "Multiple Choices"
    case MovedPermanently => "Moved Permanently"
    case Found => "Found"
    case SeeOther => "See Other"
    case NotModified => "Not Modified"
    case UseProxy => "Use Proxy"
    case TemporaryRedirect => "Temporary Redirect"
    case BadRequest => "Bad Request"
    case Unauthorized => "Unauthorized"
    case PaymentRequired => "Payment Required"
    case Forbidden => "Forbidden"
    case NotFound => "Not Found"
    case MethodNotAllowed => "Method Not Allowed"
    case NotAcceptable => "Not Acceptable"
    case ProxyAuthenticationRequired => "Proxy Authentication Required"
    case RequestTimeout => "Request Timeout"
    case Conflict => "Conflict"
    case Gone => "Gone"
    case LengthRequired => "Length Required"
    case PreconditionFailed => "Precondition Failed"
    case RequestEntityTooLarge => "Request Entity Too Large"
    case RequestUriTooLong => "Request-URI Too Long"
    case UnsupportedMediaType => "Unsupported Media Type"
    case RequestedRangeNotSatisfiable => "Requested Range Not Satisfiable"
    case ExpectationFailed => "Expectation Failed"
    case InternalServerError => "Internal Server Error"
    case NotImplemented => "Not Implemented"
    case BadGateway => "Bad Gateway"
    case ServiceUnavailable => "Service Unavailable"
    case GatewayTimeout => "Gateway Timeout"
    case HttpVersionNotSupported => "HTTP Version Not Supported"
    case Other(_) => "Other"
  }

  predicate Wordy(s: string) {
    s != "" && forall i :: 0 <= i < |s| ==> WordChar(s[i])
  }

  lemma ReasonFrom100(s: StatusCode)
    requires !s.Other? && 100 <= StatusNumber(s) < 203
    ensures Wordy(Reason(s))
  {
  }

  lemma ReasonFrom203(s: StatusCode)
    requires !s.Other? && 203 <= StatusNumber(s) < 204
    ensures Wordy(Reason(s))
  {
  }

  lemma ReasonFrom204(s: StatusCode)
    requires !s.Other? && 204 <= StatusNumber(s) < 300
    ensures Wordy(Reason(s))
  {
  }

  lemma ReasonFrom300(s: StatusCode)
    requires !s.Other? && 300 <= StatusNumber(s) < 304
    ensures Wordy(Reason(s))
  {
  }

  lemma ReasonFrom304(s: StatusCode)
    requires !s.Other? && 304 <= StatusNumber(s) < 400
    ensures Wordy(Reason(s))
  {
  }

  lemma ReasonFrom400(s: StatusCode)
    requires !s.Other? && 400 <= StatusNumber(s) < 405
    ensures Wordy(Reason(s))
  {
  }

  lemma ReasonFrom405(s: StatusCode)
    requires !s.Other? && 405 <= StatusNumber(s) < 407
    ensures Wordy(Reason(s))
  {
  }

  lemma ReasonFrom407(s: StatusCode)
    requires !s.Other? && 407 <= StatusNumber(s) < 409
    ensures Wordy(Reason(s))
  {
  }

  lemma ReasonFrom409(s: StatusCode)
    requires !s.Other? && 409 <= StatusNumber(s) < 412
    ensures Wordy(Reason(s))
  {
  }

  lemma ReasonFrom412(s: StatusCode)
    requires !s.Other? && 412 <= StatusNumber(s) < 414
    ensures Wordy(Reason(s))
  {
  }

  lemma ReasonFrom414(s: StatusCode)
    requires !s.Other? && 414 <= StatusNumber(s) < 416
    ensures Wordy(Reason(s))
  {
  }

  lemma ReasonFrom416(s: StatusCode)
    requires !s.Other? && 416 <= StatusNumber(s) < 417
    ensures Wordy(Reason(s))
  {
  }

  lemma ReasonFrom417(s: StatusCode)
    requires !s.Other? && 417 <= StatusNumber(s) < 500
    ensures Wordy(Reason(s))
  {
  }

  lemma ReasonFrom500(s: StatusCode)
    requires !s.Other? && 500 <= StatusNumber(s) < 503
    ensures Wordy(Reason(s))
  {
  }

  lemma ReasonFrom503(s: StatusCode)
    requires !s.Other? && 503 <= StatusNumber(s) < 505
    ensures Wordy(Reason(s))
  {
  }

  lemma ReasonFrom505(s: StatusCode)
    requires !s.Other? && 505 <= StatusNumber(s) < 506
    ensures Wordy(Reason(s))
  {
  }

  lemma OtherWords(s: StatusCode)
    requires s.Other?
    ensures Wordy(Reason(s))
  {
  }

  /** Every reason phrase is made of letters, blanks and hyphens: no colon, no control character. */
  lemma ReasonIsWords(s: StatusCode)
    ensures Wordy(Reason(s))
  {
    hide Reason, Wordy;
    if s.Other? {
      OtherWords(s);
    } else if StatusNumber(s) < 203 {
      ReasonFrom100(s);
    } else if StatusNumber(s) < 204 {
      ReasonFrom203(s);
    } else if StatusNumber(s) < 300 {
      ReasonFrom204(s);
    } else if StatusNumber(s) < 304 {
      ReasonFrom300(s);
    } else if StatusNumber(s) < 400 {
      ReasonFrom304(s);
    } else if StatusNumber(s) < 405 {
      ReasonFrom400(s);
    } else if StatusNumber(s) < 407 {
      ReasonFrom405(s);
    } else if StatusNumber(s) < 409 {
      ReasonFrom407(s);
    } else if StatusNumber(s) < 412 {
      ReasonFrom409(s);
    } else if StatusNumber(s) < 414 {
      ReasonFrom412(s);
    } else if StatusNumber(s) < 416 {
      ReasonFrom414(s);
    } else if StatusNumber(s) < 417 {
      ReasonFrom416(s);
    } else if StatusNumber(s) < 500 {
      ReasonFrom417(s);
    } else if StatusNumber(s) < 503 {
      ReasonFrom500(s);
    } else if StatusNumber(s) < 505 {
      ReasonFrom503(s);
    } else {
      ReasonFrom505(s);
    }
  }

  function StatusText(s: StatusCode): (r: bytes)
    ensures r != [] && forall i :: 0 <= i < |r| ==> WordByte(r[i])
  {
    ReasonIsWords(s);
    Ascii(Reason(s))
  }
}
