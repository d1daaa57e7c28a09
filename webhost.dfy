/**
 * The request pipeline of the static host: the security middleware that
 * classifies each request and writes its response headers, and the
 * catch-all GET handler that falls back to pre-rendered pages. Static
 * delivery, which sits between the two, is assumed not to have served the
 * request.
 */
module WebHost {
  import opened Text
  import opened Classifier
  import opened Headers
  import opened Fallback

  /** The part of an incoming request the host looks at. */
  datatype Request = Request(originalUrl: string)

  /** The outgoing response: its header map and `locals.type` (`None` while it is undefined). */
  class Response {
    var headers: map<string, string>
    var localsType: Option<Classification>

    constructor (headers: map<string, string>)
      ensures this.headers == headers && localsType == None
    {
      this.headers := headers;
      localsType := None;
    }

    /** `setHeader(name, value)`: overwrites the header `name`. */
    method SetHeader(name: string, value: string)
      modifies this`headers
      ensures headers == old(headers)[name := value]
    {
      headers := headers[name := value];
    }
  }

  /** `classifyFile`: stores the request's classification in `locals.type`. */
  method ClassifyFile(request: Request, response: Response)
    modifies response`localsType
    ensures response.localsType == Some(Classify(request.originalUrl))
  {
    response.localsType := Some(Classify(request.originalUrl));
  }

  /** The middleware: classify, then write the security headers and, for cacheable requests, `cache-control`. */
  method SecurityMiddleware(request: Request, response: Response)
    modifies response
    ensures response.localsType == Some(Classify(request.originalUrl))
    ensures response.headers == ApplyPolicy(old(response.headers), Classify(request.originalUrl))
  {
    ClassifyFile(request, response);
    var policy := BuildPolicy();
    response.SetHeader("content-security-policy", policy);
    response.SetHeader("strict-transport-security", "max-age=31536000; includeSubdomains; preload");
    response.SetHeader("x-frame-options", "DENY");
    response.SetHeader("x-xss-protection", "1; mode=block");
    response.SetHeader("x-content-type-options", "nosniff");
    response.SetHeader("referrer-policy", "same-origin");
    if response.localsType == Some(Cacheable) {
      response.SetHeader("cache-control", "public, max-age=31536000, immutable");
    }
  }

  /** The catch-all GET handler: acts only when `locals.type` is `page`. */
  method FallbackHandler(request: Request, response: Response, fileExists: string -> bool)
    returns (action: Action)
    ensures response.localsType.None? ==> action == NoAction
    ensures response.localsType.Some? ==> action == Resolve(response.localsType.value, request.originalUrl, fileExists)
  {
    if response.localsType.Some? {
      action := Resolve(response.localsType.value, request.originalUrl, fileExists);
    } else {
      action := NoAction;
    }
  }

  /** One request through the middleware and then the fallback handler. */
  method HandleRequest(request: Request, response: Response, fileExists: string -> bool)
    returns (action: Action)
    modifies response
    ensures response.localsType == Some(Classify(request.originalUrl))
    ensures response.headers == ApplyPolicy(old(response.headers), Classify(request.originalUrl))
    ensures action == Resolve(Classify(request.originalUrl), request.originalUrl, fileExists)
  {
    SecurityMiddleware(request, response);
    action := FallbackHandler(request, response, fileExists);
  }
}
