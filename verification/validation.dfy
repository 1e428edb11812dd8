/**
 * Input validators: `validate_url` and `validate_custom_code`.
 *
 * Each returns None when the input is acceptable and otherwise the first
 * failing check, in the order the source performs them.
 */
module Validation {
  import opened Options
  import Base62

  /** MAX_URL_LENGTH */
  const MaxUrlLength: nat := 2048

  const MinCodeLength: nat := 3
  const MaxCodeLength: nat := 32

  /** The two components of `urllib.parse.urlparse(url)` that the validator reads. */
  datatype UrlParts = UrlParts(scheme: string, netloc: string)

  datatype UrlError =
    | EmptyUrl         // "Please enter a URL."
    | UrlTooLong       // "URL is too long."
    | BadScheme        // "URL must start with http:// or https://."
    | MissingDomain    // "URL must include a valid domain."

  datatype CodeError =
    | CodeTooShort     // "Short code must be at least 3 characters."
    | CodeTooLong      // "Short code must be at most 32 characters."
    | CodeBadChars     // "Short code can only contain letters, numbers, hyphens, and underscores."

  predicate WebScheme(scheme: string) {
    scheme == "http" || scheme == "https"
  }

  /** The URLs `validate_url` accepts, stated as one condition. */
  predicate AcceptableUrl(url: string, parts: UrlParts) {
    0 < |url| <= MaxUrlLength && WebScheme(parts.scheme) && parts.netloc != []
  }

  /**
   * `validate_url(url)`, where `urlparse` stands for the library parser.
   * The parser is consulted only once the length checks have passed.
   */
  function ValidateUrl(url: string, urlparse: string -> UrlParts): (r: Option<UrlError>)
    ensures r == None <==> AcceptableUrl(url, urlparse(url))
    ensures r == None ==> 0 < |url| <= MaxUrlLength
    // the order of the checks, observable when several fail at once
    ensures url == [] ==> r == Some(EmptyUrl)
    ensures url != [] && |url| > MaxUrlLength ==> r == Some(UrlTooLong)
    ensures 0 < |url| <= MaxUrlLength && !WebScheme(urlparse(url).scheme) ==> r == Some(BadScheme)
    ensures 0 < |url| <= MaxUrlLength && WebScheme(urlparse(url).scheme) && urlparse(url).netloc == [] ==>
              r == Some(MissingDomain)
    ensures r == Some(MissingDomain) ==> WebScheme(urlparse(url).scheme) && urlparse(url).netloc == []
  {
    if url == [] then Some(EmptyUrl)
    else if |url| > MaxUrlLength then Some(UrlTooLong)
    else
      var parsed := urlparse(url);
      if !WebScheme(parsed.scheme) then Some(BadScheme)
      else if parsed.netloc == [] then Some(MissingDomain)
      else None
  }

  /**
   * `c.isalnum() or c in "-_"`, with `isalnum` restricted to ASCII, where
   * the alphanumerics are exactly the base-62 symbols.
   */
  predicate CodeChar(c: char) {
    Base62.IsSymbol(c) || c == '-' || c == '_'
  }

  /** The custom codes `validate_custom_code` accepts, stated as one condition. */
  predicate AcceptableCode(code: string) {
    code == [] || (MinCodeLength <= |code| <= MaxCodeLength && forall i :: 0 <= i < |code| ==> CodeChar(code[i]))
  }

  /** `validate_custom_code(code)`: the empty code is allowed (it means "none given"). */
  function ValidateCustomCode(code: string): (r: Option<CodeError>)
    ensures r == None <==> AcceptableCode(code)
    // too short takes precedence over too long, which takes precedence over the charset
    ensures 0 < |code| < MinCodeLength ==> r == Some(CodeTooShort)
    ensures |code| > MaxCodeLength ==> r == Some(CodeTooLong)
    ensures MinCodeLength <= |code| <= MaxCodeLength && (exists i :: 0 <= i < |code| && !CodeChar(code[i])) ==>
              r == Some(CodeBadChars)
    ensures r == Some(CodeBadChars) ==>
              MinCodeLength <= |code| <= MaxCodeLength && exists i :: 0 <= i < |code| && !CodeChar(code[i])
  {
    if code == [] then None
    else if |code| < MinCodeLength then Some(CodeTooShort)
    else if |code| > MaxCodeLength then Some(CodeTooLong)
    else if !AllCodeChars(code) then Some(CodeBadChars)
    else None
  }

  /** `all(c.isalnum() or c in "-_" for c in code)`, scanning left to right. */
  function AllCodeChars(code: string): (b: bool)
    ensures b <==> forall i :: 0 <= i < |code| ==> CodeChar(code[i])
  {
    if code == [] then true else CodeChar(code[0]) && AllCodeChars(code[1..])
  }

  /**
   * Every generated code would also pass as a custom code, so both kinds of
   * code share one namespace and one length bound.
   */
  lemma GeneratedCodeIsAcceptable(draw: Base62.Draw)
    ensures ValidateCustomCode(Base62.GenerateCode(draw)) == None
  {
    var code := Base62.GenerateCode(draw);
    Base62.EncodeUsesAlphabet(draw, Base62.CodeLength);
    forall i | 0 <= i < |code|
      ensures CodeChar(code[i])
    {
      Base62.SymbolIsInAlphabet(code[i]);
    }
  }
}
