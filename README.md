# Static web host: request classification, header policy and page fallback

This project models the request pipeline of a small Express static host for a pre-rendered blog (`webhost/src/index.mjs`). The pipeline has three steps:

1. **Classifier** (`classifyFile`). The request URL is lower-cased and tagged `cacheable` if it contains `.jpg` or `.ico` anywhere. Failing that, it is tagged `noncacheable` if it contains `.js` or `.json` anywhere. Otherwise it is tagged `page`. The tag is stored in `response.locals.type`.
2. **Security middleware**. It overwrites six security headers with fixed values. The content-security-policy value is built from ten directives by successive appends. For `cacheable` requests only, it also writes a one-year immutable `cache-control`.
3. **Page fallback** (the catch-all GET handler). This step runs only after static delivery did not serve the request, and only for `page` requests. It serves `<lower-cased path>.html` from the physical root `../dist` when that file exists. Otherwise it redirects to `/posts/home`. For any other tag it does nothing.

Files:

- `text.dfy` (module `Text`) holds the JavaScript built-ins the source relies on: `toLowerCase` (ASCII), `indexOf`, and `Array.prototype.find` with the "contains" predicate. They are stated against a ghost `Contains` (substring) predicate.
- `classifier.dfy` (module `Classifier`) holds the `Classification` datatype and `Classify`, with the priority, case-insensitivity and `.json`-redundancy lemmas.
- `headers.dfy` (module `Headers`) holds the CSP directives, the imperative `BuildPolicy` that performs the ten appends, and `ApplyPolicy`, the header map after the middleware. The lemmas say which keys change and which do not.
- `fallback.dfy` (module `Fallback`) holds the `Action` datatype (`ServeFile | Redirect | NoAction`) and `Resolve`. File existence is an oracle parameter `fileExists: string -> bool` standing for `fs.existsSync`.
- `webhost.dfy` (module `WebHost`) holds the `Response` class. Its fields are the header map and `locals.type`, and its `SetHeader` overwrites a header. Beside the class are the methods that run the middleware and the handler on it.

Behaviour the code fixes, and the model follows:

- `cache-control` is only ever added, never removed. So "present exactly when cacheable" holds only for a response that had no `cache-control` before the middleware ran (`Headers.CacheControlIffCacheable`). A response that already carries `cache-control` keeps it whatever the classification, because webhost/src/index.mjs:68-70 only ever adds it.
- The fallback handler does nothing for non-page requests. This is `NoAction`, a third outcome beside serving and redirecting.
- Matching is substring containment, not suffix matching (`Classifier.ExtensionMidUrlMatches`). Because `.json` contains `.js`, the `.json` entry never changes the outcome (`Classifier.ClassifyWithoutJson`).

## Model

| member | source | states |
|---|---|---|
| `Text.Lower` | webhost/src/index.mjs:19 | lower-casing keeps the length, leaves no ASCII upper-case letter, changes only the letters A-Z (each by +32) |
| `Text.LowerIdempotent` | webhost/src/index.mjs:19 | lower-casing an already lower-cased URL changes nothing |
| `Text.LowerAppend` | webhost/src/index.mjs:87-91 | lower-casing distributes over concatenation |
| `Text.IndexOf` | webhost/src/index.mjs:22 | `indexOf` is -1 exactly when the extension is not a substring; otherwise it is the first index where it occurs |
| `Text.IndexOfFrom` | webhost/src/index.mjs:22 | the search from a start index returns -1 or an occurrence at or after it, with no occurrence between the start and the result |
| `Text.FindContained` | webhost/src/index.mjs:21-27 | `find` over the extension list gives `undefined` exactly when no extension occurs; otherwise the first listed extension that occurs |
| `Text.NoDotNoExtension` | webhost/src/index.mjs:21-27 | a URL with no `.` contains no extension |
| `Classifier.Classify` | webhost/src/index.mjs:17-41 | total: `cacheable` iff the lower-cased URL contains `.jpg` or `.ico`; `noncacheable` iff it contains neither but contains `.js` or `.json`; `page` iff it contains none of the four |
| `Classifier.TagInjective` | webhost/src/index.mjs:31-39 | the three stored tags are distinct, so comparing `locals.type` with a tag identifies the classification |
| `Classifier.JsonContainsJs` | webhost/src/index.mjs:25-27 | every URL that contains `.json` also contains `.js` |
| `Classifier.ClassifyWithoutJson` | webhost/src/index.mjs:25-35 | the classification equals testing `.jpg`/`.ico` first and then `.js` alone |
| `Classifier.ClassifyCaseInsensitive` | webhost/src/index.mjs:19 | URLs equal up to ASCII case get the same classification, and a URL and its lower-cased form do as well |
| `Classifier.CacheableTakesPriority` | webhost/src/index.mjs:29-31 | a cacheable extension anywhere makes the request cacheable, whatever else the URL contains |
| `Classifier.DotlessIsPage` | webhost/src/index.mjs:37-40 | a URL without any `.` is a page |
| `Classifier.StyleSheetIsPage` | webhost/src/index.mjs:37-40 | `/style.css` is a page |
| `Classifier.ExtensionMidUrlMatches` | webhost/src/index.mjs:21-23 | `/foo.jpgbar` is cacheable: an extension need not be a suffix |
| `Classifier.UpperCaseCacheableWins` | webhost/src/index.mjs:19-31 | `/LOGO.JPG?v=A.JS` is cacheable: the case is ignored and the cacheable extension wins over `.js` |
| `Classifier.JsonIsNoncacheable` | webhost/src/index.mjs:33-35 | `/feed.json` is non-cacheable |
| `Headers.JoinSnoc` | webhost/src/index.mjs:51-59 | adding one directive to a joined prefix puts exactly `"; "` before it |
| `Headers.AppendStep` | webhost/src/index.mjs:51-58 | each `policy += " <directive>;"` extends the joined prefix by one directive |
| `Headers.AppendLast` | webhost/src/index.mjs:59 | the last append, without `;`, completes the join of all ten directives |
| `Headers.BuildPolicy` | webhost/src/index.mjs:50-59 | the ten appends produce exactly the ten directives joined by `"; "` |
| `Headers.JoinTrimmed` | webhost/src/index.mjs:50-59 | joining well-formed directives gives a value with no leading or trailing space or `;` |
| `Headers.CspTrimmed` | webhost/src/index.mjs:50-59 | the policy neither starts nor ends with a space and does not end in `;` |
| `Headers.ApplyPolicy` | webhost/src/index.mjs:61-70 | after the middleware the six security headers hold their fixed values, `cache-control` holds `public, max-age=31536000, immutable` when cacheable, every other header keeps its presence and value, and the key set grows by exactly those keys |
| `Headers.SecurityHeadersUniform` | webhost/src/index.mjs:61-66 | each security header has the same value whatever the classification and the prior headers |
| `Headers.CacheControlIffCacheable` | webhost/src/index.mjs:68-70 | on a response without `cache-control`, the middleware adds it exactly for cacheable requests |
| `Headers.ApplyPolicyIdempotent` | webhost/src/index.mjs:61-70 | applying the middleware's headers twice gives the same map as once |
| `Fallback.Resolve` | webhost/src/index.mjs:85-93 | no action exactly for non-page requests; a served path is the lower-cased path plus `.html`, and that file exists under the root; a redirect goes to `/posts/home` and happens only when the file is missing; a page is served exactly when its file exists |
| `Fallback.RedirectTargetFixed` | webhost/src/index.mjs:88-89 | every redirect has the same target `/posts/home`, whatever the path |
| `Fallback.ServedPathNormalised` | webhost/src/index.mjs:87-91 | a served path is lower case and ends in `.html` |
| `Fallback.AppendHtmlNoNewOccurrence` | webhost/src/index.mjs:87-91 | appending `.html` creates no new occurrence of an extension with a single leading dot that is not in `.html` |
| `Fallback.ServedFileIsPage` | webhost/src/index.mjs:85-91 | the file served for a page is itself classified as a page |
| `Fallback.ExistingPageServed` | webhost/src/index.mjs:88-91 | with `../dist/posts/hello-world.html` present, `/posts/hello-world` is served as `/posts/hello-world.html` |
| `Fallback.MissingPageRedirected` | webhost/src/index.mjs:88-89 | with `../dist/posts/missing.html` absent, `/posts/missing` is redirected to `/posts/home` |
| `WebHost.Response.SetHeader` | webhost/src/index.mjs:61-69 | `setHeader` overwrites one key of the header map and leaves `locals.type` alone |
| `WebHost.ClassifyFile` | webhost/src/index.mjs:17-41 | `locals.type` holds the request's classification afterwards |
| `WebHost.SecurityMiddleware` | webhost/src/index.mjs:46-71 | afterwards `locals.type` is the classification and the header map is `ApplyPolicy` of the old map |
| `WebHost.FallbackHandler` | webhost/src/index.mjs:83-94 | with `locals.type` undefined the handler does nothing; otherwise it acts as `Resolve` on the stored classification |
| `WebHost.HandleRequest` | webhost/src/index.mjs:46-94 | one request through the middleware and the fallback handler leaves the headers as `ApplyPolicy` and yields `Resolve` of the request's classification |

## Left out

- Express app construction, `compression()`, route registration with the `get` method filter of the fallback route, and `next()` chaining (webhost/src/index.mjs:1-9, 46, 72, 83) are framework plumbing. `HandleRequest` calls the two steps in order instead. `Request` carries no HTTP method, so the model covers GET and HEAD requests only; a request of another method never reaches the fallback handler in the source.
- `express.static` delivery (webhost/src/index.mjs:78) is an external library. The model assumes it did not serve the request, so the fallback handler is reached.
- `fs.existsSync` and `sendFile` (webhost/src/index.mjs:88, 91) are file-system I/O. Existence is the oracle parameter `fileExists`, and sending is the returned `ServeFile` action.
- The redirect status code and response transmission (webhost/src/index.mjs:89) are library behaviour. `Redirect` carries only the target.
- `listen`, the port constant 3001 and console logging (webhost/src/index.mjs:11, 99-101) are I/O.
- `Text.Lower`: does not model full Unicode `toLowerCase`. Only the ASCII letters A-Z are mapped. Non-ASCII case mappings, and mappings that change a string's length, are not captured.
- `WebHost.Response.SetHeader`: does not fold header names to lower case as Node does. Every name the host writes is already lower case.
- Express's request object is reduced to `originalUrl`. Requests are independent and share no mutable state, so concurrency is not modelled.
- `pages/posts/[id].js` is build-time page generation and is not part of this model.
