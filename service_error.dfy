/** The app's error kinds and the errors the service layer can throw. */
module ServiceErrors {
  import opened Results

  /** `DessertServiceError`: the four failure kinds of the catalog service. */
  datatype DessertServiceError = BadURL | BadServerResponse | DecodingError | UnknownError

  /** `localizedDescription` of the enum itself (a `switch` with no default). */
  function LocalizedDescription(e: DessertServiceError): (message: string)
    ensures |message| > 0
  {
    match e
    case BadURL => "The URL is invalid."
    case BadServerResponse => "The server response was invalid."
    case DecodingError => "Failed to decode the response."
    case UnknownError => "An unknown error occurred."
  }

  /** Which case a message describes, if it is one of the four messages. */
  function KindOfMessage(message: string): (kind: Option<DessertServiceError>)
    ensures kind.Some? ==> LocalizedDescription(kind.value) == message
  {
    if message == "The URL is invalid." then Some(BadURL)
    else if message == "The server response was invalid." then Some(BadServerResponse)
    else if message == "Failed to decode the response." then Some(DecodingError)
    else if message == "An unknown error occurred." then Some(UnknownError)
    else None
  }

  /** Every case has its own message: the description determines the case. */
  lemma {:induction false} DescriptionDeterminesKind(e: DessertServiceError)
    ensures KindOfMessage(LocalizedDescription(e)) == Some(e)
  {
    match e
    case BadURL =>
    case BadServerResponse =>
    case DecodingError =>
    case UnknownError =>
  }

  /** The four messages are pairwise distinct. */
  lemma MessagesDistinct(a: DessertServiceError, b: DessertServiceError)
    requires a != b
    ensures LocalizedDescription(a) != LocalizedDescription(b)
  {
    DescriptionDeterminesKind(a);
    DescriptionDeterminesKind(b);
  }

  /** `URLError.Code` values the app creates itself; every other code is kept by its raw value. */
  datatype UrlErrorCode = BadUrlCode | BadServerResponseCode | OtherUrlCode(rawValue: int)

  /** Why `JSONDecoder` rejected a record: a required key absent, or present with `null`. */
  datatype DecodingFailure = KeyNotFound(key: string) | ValueNotFound(key: string)

  /** A Swift `Error` as seen by the app. */
  datatype Error =
    | Service(kind: DessertServiceError)
    | Url(code: UrlErrorCode)
    | Decoding(failure: DecodingFailure)
    | Foreign(name: string)
}
