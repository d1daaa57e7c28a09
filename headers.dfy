/**
 * The header policy of the security middleware: six security headers with
 * fixed values on every response, and a long-lived `cache-control` header on
 * cacheable responses only.
 */
module Headers {
  import opened Classifier

  /** The ten content-security-policy directives, in the order they are appended. */
  const CspDirectives: seq<string> := [
    "default-src 'none'", "script-src 'self'", "connect-src 'self'", "child-src 'self'",
    "img-src 'self'", "style-src 'self'", "object-src 'none'", "frame-ancestors 'none'",
    "base-uri 'self'", "form-action 'self'"
  ]

  /** The directives separated by `"; "`, with no separator before the first or after the last. */
  function JoinDirectives(ds: seq<string>): string {
    if |ds| == 0 then ""
    else if |ds| == 1 then ds[0]
    else ds[0] + "; " + JoinDirectives(ds[1..])
  }

  /** The value of the `content-security-policy` header. */
  const ContentSecurityPolicy: string := JoinDirectives(CspDirectives)

  const CacheControlName := "cache-control"
  const CacheControlValue := "public, max-age=31536000, immutable"

  /** The six security headers and their exact values. */
  const SecurityHeaders: map<string, string> := map[
    "content-security-policy" := ContentSecurityPolicy,
    "strict-transport-security" := "max-age=31536000; includeSubdomains; preload",
    "x-frame-options" := "DENY",
    "x-xss-protection" := "1; mode=block",
    "x-content-type-options" := "nosniff",
    "referrer-policy" := "same-origin"
  ]

  /** Joining one more directive onto a prefix of the list puts `"; "` before it. */
  lemma {:induction false} JoinSnoc(ds: seq<string>, k: nat)
    requires 1 <= k < |ds|
    ensures JoinDirectives(ds[..k + 1]) == JoinDirectives(ds[..k]) + "; " + ds[k]
  {
    assert ds[..k + 1][1..] == ds[1..][..k];
    if k == 1 {
      assert ds[1..][..1] == [ds[1]];
    } else {
      assert ds[..k][1..] == ds[1..][..k - 1];
      JoinSnoc(ds[1..], k - 1);
    }
  }

  lemma Regroup(joined: string, d: string)
    ensures (joined + ";") + (" " + d + ";") == (joined + "; " + d) + ";"
    ensures (joined + ";") + (" " + d) == joined + "; " + d
  {
  }

  /** One `policy += " " + directive + ";"` step extends the joined prefix by one directive. */
  lemma AppendStep(policy: string, ds: seq<string>, k: nat, piece: string)
    requires 1 <= k < |ds|
    requires policy == JoinDirectives(ds[..k]) + ";"
    requires piece == " " + ds[k] + ";"
    ensures policy + piece == JoinDirectives(ds[..k + 1]) + ";"
  {
    JoinSnoc(ds, k);
    Regroup(JoinDirectives(ds[..k]), ds[k]);
  }

  /** The final `policy += " " + directive` step, without `;`, completes the join. */
  lemma AppendLast(policy: string, ds: seq<string>, piece: string)
    requires 2 <= |ds|
    requires policy == JoinDirectives(ds[..|ds| - 1]) + ";"
    requires piece == " " + ds[|ds| - 1]
    ensures policy + piece == JoinDirectives(ds)
  {
    var n := |ds|;
    var joined := JoinDirectives(ds[..n - 1]);
    assert ds[..n] == ds;
    JoinSnoc(ds, n - 1);
    assert JoinDirectives(ds) == joined + "; " + ds[n - 1];
    Regroup(joined, ds[n - 1]);
  }

  /** The literal pieces the middleware appends are the directives with their separators. */
  lemma PolicyPieces(ds: seq<string>)
    requires ds == CspDirectives
    ensures "default-src 'none';" == JoinDirectives(ds[..1]) + ";"
    ensures " script-src 'self';" == " " + ds[1] + ";"
    ensures " connect-src 'self';" == " " + ds[2] + ";"
    ensures " child-src 'self';" == " " + ds[3] + ";"
    ensures " img-src 'self';" == " " + ds[4] + ";"
  {
    assert ds[..1] == [ds[0]];
  }

  /** The remaining literal pieces the middleware appends. */
  lemma PolicyPiecesTail(ds: seq<string>)
    requires ds == CspDirectives
    ensures " style-src 'self';" == " " + ds[5] + ";"
    ensures " object-src 'none';" == " " + ds[6] + ";"
    ensures " frame-ancestors 'none';" == " " + ds[7] + ";"
    ensures " base-uri 'self';" == " " + ds[8] + ";"
    ensures " form-action 'self'" == " " + ds[9]
  {
  }

  /**
   * The policy string as the middleware builds it: one statement that starts
   * it and nine appends, each directive ending in `;` except the last.
   */
  method BuildPolicy() returns (policy: string)
    ensures policy == ContentSecurityPolicy
  {
    ghost var ds := CspDirectives;
    PolicyPieces(ds);
    PolicyPiecesTail(ds);
    policy := "default-src 'none';";
    AppendStep(policy, ds, 1, " script-src 'self';");
    policy := policy + " script-src 'self';";
    AppendStep(policy, ds, 2, " connect-src 'self';");
    policy := policy + " connect-src 'self';";
    AppendStep(policy, ds, 3, " child-src 'self';");
    policy := policy + " child-src 'self';";
    AppendStep(policy, ds, 4, " img-src 'self';");
    policy := policy + " img-src 'self';";
    AppendStep(policy, ds, 5, " style-src 'self';");
    policy := policy + " style-src 'self';";
    AppendStep(policy, ds, 6, " object-src 'none';");
    policy := policy + " object-src 'none';";
    AppendStep(policy, ds, 7, " frame-ancestors 'none';");
    policy := policy + " frame-ancestors 'none';";
    AppendStep(policy, ds, 8, " base-uri 'self';");
    policy := policy + " base-uri 'self';";
    AppendLast(policy, ds, " form-action 'self'");
    policy := policy + " form-action 'self'";
  }

  /** A directive is non-empty and neither starts nor ends with a space or `;`. */
  predicate WellFormedDirective(d: string) {
    |d| > 0 && d[0] != ' ' && d[0] != ';' && d[|d| - 1] != ' ' && d[|d| - 1] != ';'
  }

  /** Joining well-formed directives gives a value with no leading or trailing space and no trailing `;`. */
  lemma {:induction false} JoinTrimmed(ds: seq<string>)
    requires |ds| > 0
    requires forall k :: 0 <= k < |ds| ==> WellFormedDirective(ds[k])
    ensures WellFormedDirective(JoinDirectives(ds))
  {
    if |ds| > 1 {
      JoinTrimmed(ds[1..]);
    }
  }

  /** The policy value neither starts nor ends with a space and does not end in `;`. */
  lemma CspTrimmed()
    ensures |ContentSecurityPolicy| > 0
    ensures ContentSecurityPolicy[0] != ' '
    ensures ContentSecurityPolicy[|ContentSecurityPolicy| - 1] != ' '
    ensures ContentSecurityPolicy[|ContentSecurityPolicy| - 1] != ';'
  {
    JoinTrimmed(CspDirectives);
  }

  /**
   * The header map after the middleware, given the map `h` it found and the
   * classification `c`: the six security headers overwritten, `cache-control`
   * overwritten when `c` is cacheable, every other header as it was.
   */
  function ApplyPolicy(h: map<string, string>, c: Classification): (r: map<string, string>)
    ensures forall k :: k in SecurityHeaders ==> k in r && r[k] == SecurityHeaders[k]
    ensures c == Cacheable ==> CacheControlName in r && r[CacheControlName] == CacheControlValue
    ensures forall k :: k !in SecurityHeaders && (k != CacheControlName || c != Cacheable) ==>
              (k in r <==> k in h) && (k in h ==> r[k] == h[k])
    ensures r.Keys == h.Keys + SecurityHeaders.Keys + (if c == Cacheable then {CacheControlName} else {})
  {
    var secured := h["content-security-policy" := ContentSecurityPolicy]
                    ["strict-transport-security" := "max-age=31536000; includeSubdomains; preload"]
                    ["x-frame-options" := "DENY"]
                    ["x-xss-protection" := "1; mode=block"]
                    ["x-content-type-options" := "nosniff"]
                    ["referrer-policy" := "same-origin"];
    if c == Cacheable then secured[CacheControlName := CacheControlValue] else secured
  }

  /** The security headers do not depend on the classification or on what the response held before. */
  lemma SecurityHeadersUniform(h1: map<string, string>, c1: Classification,
                               h2: map<string, string>, c2: Classification, k: string)
    requires k in SecurityHeaders
    ensures k in ApplyPolicy(h1, c1) && k in ApplyPolicy(h2, c2)
    ensures ApplyPolicy(h1, c1)[k] == ApplyPolicy(h2, c2)[k]
  {
  }

  /** On a response that carries no `cache-control` yet, the middleware adds one exactly for cacheable requests. */
  lemma CacheControlIffCacheable(h: map<string, string>, c: Classification)
    requires CacheControlName !in h
    ensures CacheControlName in ApplyPolicy(h, c) <==> c == Cacheable
  {
  }

  /** Running the middleware a second time changes nothing. */
  lemma ApplyPolicyIdempotent(h: map<string, string>, c: Classification)
    ensures ApplyPolicy(ApplyPolicy(h, c), c) == ApplyPolicy(h, c)
  {
  }
}
