/**
  The pure parts of the image-generation client: the request body sent to the DALL-E endpoint,
  the classification of the reply by HTTP status, and the extraction of the generated image's
  URL from the decoded reply. The WebClient exchange itself, the JSON decoder and the API key
  are collaborators; the decoder's outcome enters as a parameter.
 */
module OpenAiService {
  import opened Wrappers

  /** A decoded JSON value as Jackson hands it over: null, a boolean, a number, a string, a list or a map. */
  datatype Json =
    | JNull
    | JBool(b: bool)
    | JNumber(n: int)
    | JString(str: string)
    | JArray(items: seq<Json>)
    | JObject(fields: map<string, Json>)

  /**
    The exceptions of this client: OpenAiClientException, OpenAiServerException and
    OpenAiResponseException (each carries only its error code: the client exception's constructor
    drops the message it is given), the body the decoder could not read, and the two runtime
    failures a reply of the wrong shape provokes (a null dereference and a failed cast).
   */
  datatype OpenAiError =
    | ClientError
    | ServerError
    | ResponseInvalid
    | DecodeFailed
    | NullDereference
    | WrongType

  // ----- Request body -----

  /** The fixed instruction that precedes every prompt. */
  const Instruction: string := "When generating an image, observe: no text in image; illustration only."

  /** The prompt: the instruction, a space, then the story content. */
  function Prompt(content: string): (prompt: string)
    ensures |prompt| == |Instruction| + 1 + |content|
    ensures prompt[..|Instruction|] == Instruction && prompt[|Instruction|] == ' '
    ensures prompt[|Instruction| + 1..] == content
  {
    Instruction + " " + content
  }

  /** Recovers the content from a prompt: None for a string that no content produces. */
  function ContentOf(prompt: string): (content: Option<string>)
    ensures content.Some? <==>
      |prompt| > |Instruction| && prompt[..|Instruction|] == Instruction && prompt[|Instruction|] == ' '
  {
    if |prompt| > |Instruction| && prompt[..|Instruction|] == Instruction && prompt[|Instruction|] == ' '
    then Some(prompt[|Instruction| + 1..])
    else None
  }

  /** The content is recoverable from the prompt, so distinct contents give distinct prompts. */
  lemma PromptRoundTrip(content: string)
    ensures ContentOf(Prompt(content)) == Some(content)
  {
  }

  /** Every prompt-shaped string is the prompt of the content recovered from it. */
  lemma {:induction false} ContentOfIsInverse(prompt: string)
    requires ContentOf(prompt).Some?
    ensures Prompt(ContentOf(prompt).value) == prompt
  {
    var c := ContentOf(prompt).value;
    assert prompt == prompt[..|Instruction|] + [prompt[|Instruction|]] + prompt[|Instruction| + 1..];
    assert Prompt(c) == Instruction + " " + c;
  }

  /**
    prepareRequestBody: a fresh map filled by four puts. It holds exactly the keys prompt, n, size
    and model, with the prompt built from the content, one image, 1024x1024 and dall-e-2.
   */
  method PrepareRequestBody(content: string) returns (req: map<string, Json>)
    ensures req.Keys == {"prompt", "n", "size", "model"}
    ensures req["prompt"].JString? && ContentOf(req["prompt"].str) == Some(content)
    ensures req["n"] == JNumber(1)
    ensures req["size"] == JString("1024x1024")
    ensures req["model"] == JString("dall-e-2")
  {
    var prompt := Prompt(content);
    PromptRoundTrip(content);
    req := map[];
    req := req["prompt" := JString(prompt)];
    req := req["n" := JNumber(1)];
    req := req["size" := JString("1024x1024")];
    req := req["model" := JString("dall-e-2")];
  }

  // ----- Status classification -----

  /** HttpStatusCode's hundreds: value / 100, on the status codes 100 to 999 a response can carry. */
  function Hundreds(status: int): (h: int)
    requires 100 <= status <= 999
    ensures 1 <= h <= 9
    ensures 100 * h <= status < 100 * h + 100
  {
    status / 100
  }

  /**
    handleResponse: the reply's body is read first. An empty body makes the returned Mono
    complete empty whatever the status, so nothing is raised and block() hands the caller null
    (Success(None)). Otherwise a 4xx status fails with OpenAiClientException and a 5xx status
    with OpenAiServerException, the body feeding only the log line and the message the client
    exception discards; any other status yields the body as decoded into a map, or fails when it
    does not decode.
   */
  function HandleResponse(status: int, body: string, decoded: Option<map<string, Json>>)
    : (r: Result<Option<map<string, Json>>, OpenAiError>)
    requires 100 <= status <= 999
    ensures r == Success(None) <==> body == []
    ensures r == Failure(ClientError) <==> body != [] && 400 <= status <= 499
    ensures r == Failure(ServerError) <==> body != [] && 500 <= status <= 599
    ensures body != [] && !(400 <= status <= 599) ==>
      && (r.Success? <==> decoded.Some?)
      && (r.Success? ==> r.value == Some(decoded.value))
      && (r.Failure? ==> r.error == DecodeFailed)
  {
    if body == [] then Success(None)
    else if Hundreds(status) == 4 then Failure(ClientError)
    else if Hundreds(status) == 5 then Failure(ServerError)
    else match decoded
      case Some(m) => Success(Some(m))
      case None => Failure(DecodeFailed)
  }

  /**
    A non-empty 4xx or 5xx reply fails, and what its body holds (beyond being non-empty) and how
    it decodes do not change the outcome.
   */
  lemma ErrorStatusIgnoresBody(status: int, body1: string, body2: string,
                               decoded1: Option<map<string, Json>>, decoded2: Option<map<string, Json>>)
    requires 400 <= status <= 599
    requires body1 != [] && body2 != []
    ensures HandleResponse(status, body1, decoded1).Failure?
    ensures HandleResponse(status, body1, decoded1) == HandleResponse(status, body2, decoded2)
  {
  }

  /**
    The handling the error branches evidently intend: a 4xx or 5xx status always raises its
    exception, an empty body included; other statuses are handled as written.
   */
  function HandleResponseIntended(status: int, body: string, decoded: Option<map<string, Json>>)
    : (r: Result<Option<map<string, Json>>, OpenAiError>)
    requires 100 <= status <= 999
    ensures r == Failure(ClientError) <==> 400 <= status <= 499
    ensures r == Failure(ServerError) <==> 500 <= status <= 599
    ensures !(400 <= status <= 599) ==> r == HandleResponse(status, body, decoded)
  {
    if Hundreds(status) == 4 then Failure(ClientError)
    else if Hundreds(status) == 5 then Failure(ServerError)
    else HandleResponse(status, body, decoded)
  }

  /** The intended handling differs from the written one only on an empty 4xx or 5xx reply. */
  lemma IntendedAgreesOnNonEmpty(status: int, body: string, decoded: Option<map<string, Json>>)
    requires 100 <= status <= 999
    ensures HandleResponseIntended(status, body, decoded) == HandleResponse(status, body, decoded)
      <==> body != [] || !(400 <= status <= 599)
  {
  }

  // ----- Image URL -----

  /**
    extractImageUrl: the url of the first element of "data". OpenAiResponseException when "data"
    is missing, when it is empty, or when its first element has no url (a null url maps the
    Optional to empty). A null "data" or a null first element dereferences null; a "data" that is
    not a list, a first element that is not a map or a url that is not a string fails the cast.
   */
  function ExtractImageUrl(response: map<string, Json>): (r: Result<string, OpenAiError>)
    ensures r.Success? <==>
      && "data" in response && response["data"].JArray? && |response["data"].items| > 0
      && response["data"].items[0].JObject?
      && "url" in response["data"].items[0].fields
      && response["data"].items[0].fields["url"].JString?
    ensures r.Success? ==> r.value == response["data"].items[0].fields["url"].str
    ensures r == Failure(ResponseInvalid) <==>
      || "data" !in response
      || response["data"] == JArray([])
      || (&& response["data"].JArray? && |response["data"].items| > 0 && response["data"].items[0].JObject?
          && ("url" !in response["data"].items[0].fields || response["data"].items[0].fields["url"] == JNull))
  {
    if "data" !in response then Failure(ResponseInvalid)
    else
      match response["data"]
      case JNull => Failure(NullDereference)
      case JArray(images) => (
        if images == [] then Failure(ResponseInvalid)
        else
          match images[0]
          case JNull => Failure(NullDereference)
          case JObject(img) => (
            if "url" !in img then Failure(ResponseInvalid)
            else
              match img["url"]
              case JNull => Failure(ResponseInvalid)
              case JString(url) => Success(url)
              case _ => Failure(WrongType))
          case _ => Failure(WrongType))
      case _ => Failure(WrongType)
  }

  /**
    What generateImage does with the reply between the exchange and the upload: block() hands
    over what handleResponse resolved to, a raised exception propagates, and the map goes to
    extractImageUrl, which dereferences null when the reply completed empty.
   */
  function ImageUrlOfReply(handled: Result<Option<map<string, Json>>, OpenAiError>): (r: Result<string, OpenAiError>)
    ensures handled.Failure? ==> r == Failure(handled.error)
    ensures handled == Success(None) ==> r == Failure(NullDereference)
    ensures handled.Success? && handled.value.Some? ==> r == ExtractImageUrl(handled.value.value)
  {
    match handled
    case Failure(e) => Failure(e)
    case Success(None) => Failure(NullDereference)
    case Success(Some(response)) => ExtractImageUrl(response)
  }

  /**
    As written, an error reply with an empty body raises neither client nor server exception:
    generateImage goes on and extractImageUrl dereferences null. The intended handling reports
    the client error.
   */
  lemma EmptyErrorReplyAsWritten(decoded: Option<map<string, Json>>)
    ensures HandleResponse(404, [], decoded) == Success(None)
    ensures ImageUrlOfReply(HandleResponse(404, [], decoded)) == Failure(NullDereference)
    ensures ImageUrlOfReply(HandleResponseIntended(404, [], decoded)) == Failure(ClientError)
  {
  }

  /** A well-formed DALL-E reply listing the given image URLs, one object with a "url" per image. */
  function ReplyOf(urls: seq<string>): (response: map<string, Json>)
    ensures response.Keys == {"data"} && response["data"].JArray? && |response["data"].items| == |urls|
  {
    map["data" := JArray(seq(|urls|, i requires 0 <= i < |urls| => JObject(map["url" := JString(urls[i])])))]
  }

  /** On a well-formed reply, extraction yields the first URL, or OpenAiResponseException when no image came back. */
  lemma ExtractFromReply(urls: seq<string>)
    ensures ExtractImageUrl(ReplyOf(urls)) == if urls == [] then Failure(ResponseInvalid) else Success(urls[0])
  {
    var response := ReplyOf(urls);
    if urls != [] {
      assert response["data"].items[0] == JObject(map["url" := JString(urls[0])]);
    } else {
      assert response["data"] == JArray([]);
    }
  }
}
