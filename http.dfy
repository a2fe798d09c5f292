/** Shared vocabulary of the API: machine integers, Option/Result, the HTTP
    errors the handlers return, and the header-to-text conversion that both
    authentication extractors rely on. */
module Http {

  /** One byte of a request: query strings and header values are byte strings. */
  type byte = x: int | 0 <= x < 0x100

  type u32 = x: int | 0 <= x < 0x1_0000_0000

  type u64 = x: int | 0 <= x < 0x1_0000_0000_0000_0000

  datatype Option<+T> = None | Some(value: T)

  datatype Result<+T, +E> = Success(value: T) | Failure(error: E)

  /** The error responses the handlers build; each carries its body text. */
  datatype HttpError =
    | BadRequest(body: string)
    | Unauthorized(body: string)
    | Forbidden(body: string)
    | InternalServerError(body: string)
  {
    function Status(): (code: nat)
      ensures 400 <= code <= 500
    {
      match this
      case BadRequest(_) => 400
      case Unauthorized(_) => 401
      case Forbidden(_) => 403
      case InternalServerError(_) => 500
    }
  }

  /** Bytes a header value may hold to be readable as text: visible ASCII
      (space through tilde) and horizontal tab. */
  predicate IsVisibleAscii(b: byte) {
    b == 0x09 || (0x20 <= b && b < 0x7F)
  }

  /** A header value read as text: it succeeds exactly when every byte is
      visible ASCII, and then the text is the bytes unchanged. */
  function HeaderToStr(value: seq<byte>): (r: Option<seq<byte>>)
    ensures r.Some? <==> forall i :: 0 <= i < |value| ==> IsVisibleAscii(value[i])
    ensures r.Some? ==> r.value == value
  {
    if value == [] then Some([])
    else if !IsVisibleAscii(value[0]) then None
    else
      match HeaderToStr(value[1..])
      case None => None
      case Some(_) => Some(value)
  }
}
