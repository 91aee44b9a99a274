/**
 * `ApiRequest` (a request description built on top of an optional base
 * request) and the URL `Api.prepareRequest` derives from it.
 */
module Api {
  import opened Options
  import opened Records
  import opened Url

  /** A query parameter value: `string | number | boolean`. */
  datatype QueryValue = Str(s: string) | Num(n: real) | Bool(b: bool)

  /** The `Response` body readers a request may ask for. */
  datatype ResponseType = ArrayBuffer | Blob | Json | Text

  /**
   * `Partial<ApiRequestProps>`: every field may be absent. The values of
   * `requestInit` (a `RequestInit`) are of the opaque type `I`.
   */
  datatype RequestProps<I> = RequestProps(
    baseUrl: Option<string>,
    params: Option<Record<Option<QueryValue>>>,
    responseType: Option<ResponseType>,
    requestInit: Option<Record<I>>)
  {
    /** The objects it carries are well formed. */
    ghost predicate Valid()
    {
      (params.Some? ==> params.value.Valid()) && (requestInit.Some? ==> requestInit.value.Valid())
    }
  }

  class ApiRequest<I> {
    var baseUrl: string
    var params: Record<Option<QueryValue>>
    var requestInit: Record<I>
    var responseType: ResponseType

    ghost predicate Valid()
      reads this
    {
      params.Valid() && requestInit.Valid()
    }

    /**
     * Starts from the defaults (or from a copy of `baseRequest`'s fields),
     * appends a non-empty `baseUrl`, spreads `params` and `requestInit` over
     * the current ones and takes `responseType` if one is given.
     */
    constructor (request: RequestProps<I>, baseRequest: ApiRequest?<I>)
      requires request.Valid()
      requires baseRequest != null ==> baseRequest.Valid()
      ensures Valid()
      // Without a base: the given values, or the defaults.
      ensures baseRequest == null ==> baseUrl == request.baseUrl.GetOr("")
      ensures baseRequest == null ==> params == request.params.GetOr(Empty())
      ensures baseRequest == null ==> requestInit == request.requestInit.GetOr(Empty())
      ensures baseRequest == null ==> responseType == request.responseType.GetOr(Json)
      // With a base: its URL extended, its objects overridden key by key.
      ensures baseRequest != null ==> baseUrl == baseRequest.baseUrl + request.baseUrl.GetOr("")
      ensures baseRequest != null ==> params == Spread(baseRequest.params, request.params.GetOr(Empty()))
      ensures baseRequest != null ==> requestInit == Spread(baseRequest.requestInit, request.requestInit.GetOr(Empty()))
      ensures baseRequest != null ==> responseType == request.responseType.GetOr(baseRequest.responseType)
    {
      baseUrl := "";
      params := Empty();
      requestInit := Empty();
      responseType := Json;
      if baseRequest != null {
        baseUrl := baseRequest.baseUrl;
        params := baseRequest.params;
        requestInit := baseRequest.requestInit;
        responseType := baseRequest.responseType;
      }
      new;
      if request.baseUrl.Some? && request.baseUrl.value != "" {
        baseUrl := baseUrl + request.baseUrl.value;
      } else {
        assert baseUrl + request.baseUrl.GetOr("") == baseUrl;
      }
      var newParams := request.params.GetOr(Empty());
      var newInit := request.requestInit.GetOr(Empty());
      if baseRequest == null {
        SpreadOntoEmpty(newParams);
        SpreadOntoEmpty(newInit);
      }
      params := Spread(params, newParams);
      requestInit := Spread(requestInit, newInit);
      responseType := request.responseType.GetOr(responseType);
    }
  }

  /**
   * The `url` of `Api.prepareRequest(request)`: the base URL followed by the
   * query string of the parameters.
   */
  method PrepareUrl<I>(request: ApiRequest<I>, encode: QueryValue -> string) returns (url: string)
    requires request.Valid()
    ensures url == request.baseUrl + QueryString(request.params, encode)
  {
    var query := Query(request.params, encode);
    url := request.baseUrl + query;
  }
}
