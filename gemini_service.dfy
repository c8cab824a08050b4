/** Request building, response scanning and result aggregation of the image
    generation service (services/geminiService.ts). The external image model is
    not modelled: its answer to each call is an input, `reply(i)`, the response
    to the call made for variation index `i`. */
module GeminiService {
  import opened Types
  import Decimal
  import Catalog

  /** One part of a request or response: inline base64 data with its MIME type, or text. */
  datatype Part = InlineData(data: string, mimeType: string) | Text(text: string)

  /** What one call to the model yields: it fails (a network or service error, or a
      response without a first candidate), or the parts of its first candidate. */
  datatype Response = CallFailed | Answered(parts: seq<Part>)

  // ---------------------------------------------------------------------------
  // Prompt building (generatePrompt)
  // ---------------------------------------------------------------------------

  const TemplateOpening: string :=
    "Create a professional, modern, and eye-catching marketing image for a brand named \""
  const TemplateClosing: string :=
    "\".\nThe image should be suitable for a high-impact social media post." +
    "\nEnsure the text is legible and well-integrated into the design." +
    "\nThe overall mood should be energetic and professional."
  const VariationIntro: string := "\nThis is variation "
  const VariationRequest: string :=
    ". Please provide a distinctly different layout or color scheme from previous versions."
  const LogoSentence: string := "\nIncorporate the provided logo naturally into the design."

  /** The fixed template with brand name, tagline and style each embedded in quotes. */
  function Template(brandName: string, tagline: string, style: string): string
  {
    TemplateOpening + brandName +
    "\".\nThe main tagline or text to feature is: \"" + tagline +
    "\".\nThe desired style is: \"" + style + TemplateClosing
  }

  /** The hint added to every variation after the first; it numbers variations from 1. */
  function VariationSentence(variation: nat): string
  {
    VariationIntro + Decimal.NatToString(variation + 1) + VariationRequest
  }

  /** The variation hint as it is appended: nothing for the first variation. */
  function VariationHint(variation: nat): string
  {
    if variation > 0 then VariationSentence(variation) else ""
  }

  /** A logo is attached when both its data and its MIME type are truthy. */
  predicate HasLogo(params: GenerationParams)
  {
    Truthy(params.logoBase64) && Truthy(params.logoMimeType)
  }

  /** The logo instruction as it is appended: nothing without a logo. */
  function LogoHint(params: GenerationParams): string
  {
    if HasLogo(params) then LogoSentence else ""
  }

  /** The prompt text: template, then the variation hint, then the logo instruction. */
  function PromptText(params: GenerationParams, variation: nat): string
  {
    Template(params.brandName, params.tagline, params.style) + VariationHint(variation) + LogoHint(params)
  }

  /** The request parts for one variation: the optional logo image first, the text last. */
  function PromptParts(params: GenerationParams, variation: nat): seq<Part>
  {
    (if HasLogo(params)
     then [InlineData(params.logoBase64.value, params.logoMimeType.value)]
     else []) +
    [Text(PromptText(params, variation))]
  }

  /** One part without a logo, two with one; the logo image comes first and carries
      the given data and MIME type unchanged; the text comes last and begins with the
      template. */
  lemma PromptPartsShape(params: GenerationParams, variation: nat)
    ensures var parts := PromptParts(params, variation);
            && |parts| == (if HasLogo(params) then 2 else 1)
            && (HasLogo(params) ==>
                  parts[0] == InlineData(params.logoBase64.value, params.logoMimeType.value))
            && parts[|parts| - 1] == Text(PromptText(params, variation))
            && Template(params.brandName, params.tagline, params.style) <= parts[|parts| - 1].text
  {
  }

  /** generatePrompt as the source writes it: the text grows by `+=`, the parts by `push`. */
  method GeneratePrompt(params: GenerationParams, variation: nat) returns (parts: seq<Part>)
    ensures parts == PromptParts(params, variation)
  {
    var promptText := Template(params.brandName, params.tagline, params.style);
    if variation > 0 {
      promptText := promptText + VariationSentence(variation);
    }
    parts := [];
    if Truthy(params.logoBase64) && Truthy(params.logoMimeType) {
      parts := parts + [InlineData(params.logoBase64.value, params.logoMimeType.value)];
      promptText := promptText + LogoSentence;
    }
    parts := parts + [Text(promptText)];
    assert promptText == PromptText(params, variation);
  }

  lemma CancelPrefix(a: string, b: string, c: string)
    requires a + b == a + c
    ensures b == c
  {
    assert b == (a + b)[|a|..];
    assert c == (a + c)[|a|..];
  }

  lemma CancelSuffix(a: string, b: string, c: string)
    requires a + c == b + c
    ensures a == b
  {
    assert a == (a + c)[..|a|];
    assert b == (b + c)[..|b|];
  }

  lemma AfterTemplate(params: GenerationParams, variation: nat)
    ensures var t := Template(params.brandName, params.tagline, params.style);
            PromptText(params, variation)[|t|..] == VariationHint(variation) + LogoHint(params)
  {
    var t := Template(params.brandName, params.tagline, params.style);
    var v, l := VariationHint(variation), LogoHint(params);
    assert PromptText(params, variation) == t + v + l;
    DropFront(t, v, l);
  }

  lemma DropFront(t: string, v: string, l: string)
    ensures (t + v + l)[|t|..] == v + l
  {
  }

  lemma HintsStartWithIntro(params: GenerationParams, variation: nat)
    ensures VariationIntro <= VariationHint(variation) + LogoHint(params) <==> variation > 0
    ensures variation > 0 ==> VariationSentence(variation) <= VariationHint(variation) + LogoHint(params)
  {
    if variation == 0 && HasLogo(params) {
      assert VariationHint(variation) + LogoHint(params) == LogoSentence;
      assert LogoSentence[18] == 'r' && VariationIntro[18] == ' ';
    }
  }

  /** The text after the template begins with the variation hint exactly when the
      index is above 0, and then the hint carries the number index + 1. */
  lemma VariationHintIff(params: GenerationParams, variation: nat)
    ensures var tail := PromptText(params, variation)[|Template(params.brandName, params.tagline, params.style)|..];
            (VariationIntro <= tail <==> variation > 0) &&
            (variation > 0 ==> VariationSentence(variation) <= tail)
  {
    AfterTemplate(params, variation);
    HintsStartWithIntro(params, variation);
  }

  /** The text ends with the logo instruction exactly when a logo is attached. */
  lemma LogoSentenceIff(params: GenerationParams, variation: nat)
    ensures var text := PromptText(params, variation);
            (|LogoSentence| <= |text| && text[|text| - |LogoSentence|..] == LogoSentence) <==> HasLogo(params)
  {
    var t := Template(params.brandName, params.tagline, params.style);
    var hint := VariationHint(variation);
    var text := PromptText(params, variation);
    assert LogoSentence[|LogoSentence| - 2] == 'n';
    if !HasLogo(params) {
      assert text == t + hint;
      if variation > 0 {
        assert text[|text| - 2] == VariationRequest[|VariationRequest| - 2] == 's';
      } else {
        assert text[|text| - 2] == TemplateClosing[|TemplateClosing| - 2] == 'l';
      }
    }
  }

  lemma VariationHintsDistinct(i: nat, j: nat)
    requires i != j
    ensures VariationHint(i) != VariationHint(j)
  {
    if i > 0 && j > 0 && VariationHint(i) == VariationHint(j) {
      var di := Decimal.NatToString(i + 1);
      var dj := Decimal.NatToString(j + 1);
      assert (VariationIntro + di) + VariationRequest == (VariationIntro + dj) + VariationRequest;
      CancelSuffix(VariationIntro + di, VariationIntro + dj, VariationRequest);
      CancelPrefix(VariationIntro, di, dj);
      Decimal.NatToStringInjective(i + 1, j + 1);
    }
  }

  /** Every variation index yields a different request. */
  lemma PromptsDistinct(params: GenerationParams, i: nat, j: nat)
    requires i != j
    ensures PromptParts(params, i) != PromptParts(params, j)
  {
    var t := Template(params.brandName, params.tagline, params.style);
    var logo := LogoHint(params);
    var pi, pj := PromptParts(params, i), PromptParts(params, j);
    if pi == pj {
      assert pi[|pi| - 1].text == PromptText(params, i);
      assert pj[|pj| - 1].text == PromptText(params, j);
      assert (t + VariationHint(i)) + logo == (t + VariationHint(j)) + logo;
      CancelSuffix(t + VariationHint(i), t + VariationHint(j), logo);
      CancelPrefix(t, VariationHint(i), VariationHint(j));
      VariationHintsDistinct(i, j);
    }
  }

  // ---------------------------------------------------------------------------
  // Response scanning and per-variation outcome
  // ---------------------------------------------------------------------------

  /** The data URL the service builds from an inline image part. */
  function DataUrl(mimeType: string, data: string): string
  {
    "data:" + mimeType + ";base64," + data
  }

  /** `k` is the index of the first inline-data part of `parts`. */
  predicate IsFirstImage(parts: seq<Part>, k: int)
  {
    && 0 <= k < |parts|
    && parts[k].InlineData?
    && forall j :: 0 <= j < k ==> parts[j].Text?
  }

  /** The data URL of the first inline-data part of a response, if it has one. */
  function FirstImageUrl(parts: seq<Part>): (url: Option<string>)
    ensures url.Some? <==> exists k :: 0 <= k < |parts| && parts[k].InlineData?
    ensures url.Some? ==>
              exists k :: IsFirstImage(parts, k) && url.value == DataUrl(parts[k].mimeType, parts[k].data)
  {
    if parts == [] then None
    else if parts[0].InlineData? then
      assert IsFirstImage(parts, 0);
      Some(DataUrl(parts[0].mimeType, parts[0].data))
    else
      var url := FirstImageUrl(parts[1..]);
      assert forall k :: 1 <= k < |parts| ==> parts[k] == parts[1..][k - 1];
      assert forall k :: IsFirstImage(parts[1..], k) ==> IsFirstImage(parts, k + 1);
      url
  }

  /** The `for…of` scan of the response parts with its early return. */
  method FindImage(parts: seq<Part>) returns (url: Option<string>)
    ensures url == FirstImageUrl(parts)
  {
    var i := 0;
    while i < |parts|
      invariant 0 <= i <= |parts|
      invariant FirstImageUrl(parts[i..]) == FirstImageUrl(parts)
    {
      if parts[i].InlineData? {
        return Some(DataUrl(parts[i].mimeType, parts[i].data));
      }
      assert parts[i..][1..] == parts[i + 1..];
      i := i + 1;
    }
    return None;
  }

  /** The message of the error a failed variation rejects with. */
  function VariationMessage(i: nat): string
  {
    "Failed to generate image variation " + Decimal.NatToString(i + 1)
  }

  /** What the task for variation `i` settles to, given the model's response. */
  function VariationOutcome(i: nat, response: Response): (r: Result<string>)
    ensures r.Failure? ==> r.message == VariationMessage(i)
    ensures r.Success? <==>
              response.Answered? && exists k :: 0 <= k < |response.parts| && response.parts[k].InlineData?
    ensures r.Success? ==>
              exists k :: IsFirstImage(response.parts, k) &&
                r.value == DataUrl(response.parts[k].mimeType, response.parts[k].data)
    ensures r.Success? ==> "data:" <= r.value
  {
    match response
    case CallFailed => Failure(VariationMessage(i))
    case Answered(parts) =>
      match FirstImageUrl(parts)
      case None => Failure(VariationMessage(i))
      case Some(url) => Success(url)
  }

  /** The asynchronous task for variation `i`: build the request, call the model,
      scan the answer; any failure becomes the variation's own error. */
  method GenerateVariation(params: GenerationParams, i: nat, reply: nat -> Response)
    returns (r: Result<string>, request: seq<Part>)
    ensures request == PromptParts(params, i)
    ensures r == VariationOutcome(i, reply(i))
  {
    request := GeneratePrompt(params, i);
    var response := reply(i);
    if response.CallFailed? {
      return Failure(VariationMessage(i)), request;
    }
    var url := FindImage(response.parts);
    if url.None? {
      return Failure(VariationMessage(i)), request;
    }
    return Success(url.value), request;
  }

  // ---------------------------------------------------------------------------
  // Aggregation (Promise.all) and the whole generation
  // ---------------------------------------------------------------------------

  /** `Promise.all` over settled outcomes, as a fold in index order: all the values
      when every outcome succeeded, otherwise the error of some failed one. */
  function AwaitAll(outcomes: seq<Result<string>>): (r: Result<seq<string>>)
    ensures r.Success? <==> forall k :: 0 <= k < |outcomes| ==> outcomes[k].Success?
    ensures r.Success? ==>
              |r.value| == |outcomes| && forall k :: 0 <= k < |outcomes| ==> r.value[k] == outcomes[k].value
    ensures r.Failure? ==>
              exists k :: 0 <= k < |outcomes| && outcomes[k].Failure? && r.message == outcomes[k].message
  {
    if outcomes == [] then Success([])
    else
      var rest := AwaitAll(outcomes[1..]);
      assert forall k :: 1 <= k < |outcomes| ==> outcomes[k] == outcomes[1..][k - 1];
      match outcomes[0]
      case Failure(m) => Failure(m)
      case Success(v) => if rest.Failure? then rest else Success([v] + rest.value)
  }

  /** The requests for variations 0..n-1, in index order. */
  function Requests(params: GenerationParams, n: nat): (rs: seq<seq<Part>>)
    ensures |rs| == n
  {
    if n == 0 then [] else Requests(params, n - 1) + [PromptParts(params, n - 1)]
  }

  /** The settled outcome of every variation 0..n-1, in index order. */
  function Outcomes(reply: nat -> Response, n: nat)
    : (os: seq<Result<string>>)
    ensures |os| == n
    ensures forall i :: 0 <= i < n ==> os[i].Failure? ==> os[i].message == VariationMessage(i)
    ensures forall i :: 0 <= i < n ==> os[i].Success? ==> "data:" <= os[i].value
  {
    if n == 0 then []
    else Outcomes(reply, n - 1) + [VariationOutcome(n - 1, reply(n - 1))]
  }

  /** Request `i` is the prompt for variation `i`. */
  lemma {:induction false} RequestsAt(params: GenerationParams, n: nat, i: nat)
    requires i < n
    ensures Requests(params, n)[i] == PromptParts(params, i)
  {
    var prev := Requests(params, n - 1);
    var last := PromptParts(params, n - 1);
    assert Requests(params, n) == prev + [last];
    if i < n - 1 {
      RequestsAt(params, n - 1, i);
      assert (prev + [last])[i] == prev[i];
    }
  }

  /** Outcome `i` is what variation `i`'s task settles to on the reply to its call. */
  lemma {:induction false} OutcomesAt(reply: nat -> Response, n: nat, i: nat)
    requires i < n
    ensures Outcomes(reply, n)[i] == VariationOutcome(i, reply(i))
  {
    var prev := Outcomes(reply, n - 1);
    var last := VariationOutcome(n - 1, reply(n - 1));
    assert Outcomes(reply, n) == prev + [last];
    if i < n - 1 {
      OutcomesAt(reply, n - 1, i);
      assert (prev + [last])[i] == prev[i];
    }
  }

  const InvalidPackage: string := "Invalid package selected"

  /** The result of generateMarketingImages against a catalog: "Invalid package selected"
      when the tier is not listed, otherwise the aggregate of the selected package's
      imageCount variations (see OutcomesAt for what each of them is). */
  function Generate(packages: seq<PackageOption>, params: GenerationParams, reply: nat -> Response)
    : (r: Result<seq<string>>)
    ensures Catalog.Find(packages, params.packageTier).None? ==> r == Failure(InvalidPackage)
    ensures Catalog.Find(packages, params.packageTier).Some? ==>
              var n := Catalog.Find(packages, params.packageTier).value.imageCount;
              var os := Outcomes(reply, n);
              && (r.Success? <==> forall i :: 0 <= i < n ==> os[i].Success?)
              && (r.Success? ==>
                    && |r.value| == n
                    && forall i :: 0 <= i < n ==> r.value[i] == os[i].value && "data:" <= r.value[i])
              && (r.Failure? ==>
                    exists i :: 0 <= i < n && os[i].Failure? && r.message == VariationMessage(i))
  {
    match Catalog.Find(packages, params.packageTier)
    case None => Failure(InvalidPackage)
    case Some(p) =>
      var os := Outcomes(reply, p.imageCount);
      var r := AwaitAll(os);
      assert os == Outcomes(reply, Catalog.Find(packages, params.packageTier).value.imageCount);
      assert r.Success? ==> forall i :: 0 <= i < p.imageCount ==> os[i].Success?;
      assert (forall i :: 0 <= i < p.imageCount ==> os[i].Success?) ==> r.Success?;
      r
  }

  /** generateMarketingImages: look up the package, run one task per index
      0..imageCount-1 (in the source they run concurrently), and combine them.
      `sent` lists the requests given to the model, in the order they were issued. */
  method GenerateMarketingImages(packages: seq<PackageOption>, params: GenerationParams,
                                 reply: nat -> Response)
    returns (r: Result<seq<string>>, sent: seq<seq<Part>>)
    ensures r == Generate(packages, params, reply)
    ensures Catalog.Find(packages, params.packageTier).None? ==> sent == []
    ensures Catalog.Find(packages, params.packageTier).Some? ==>
              && |sent| == Catalog.Find(packages, params.packageTier).value.imageCount
              && forall i :: 0 <= i < |sent| ==> sent[i] == PromptParts(params, i)
  {
    var selected := Catalog.Find(packages, params.packageTier);
    if selected.None? {
      return Failure(InvalidPackage), [];
    }
    var count := selected.value.imageCount;
    var outcomes: seq<Result<string>> := [];
    sent := [];
    for i := 0 to count
      invariant sent == Requests(params, i)
      invariant outcomes == Outcomes(reply, i)
    {
      var outcome, request := GenerateVariation(params, i, reply);
      outcomes := outcomes + [outcome];
      sent := sent + [request];
    }
    r := AwaitAll(outcomes);
    forall i | 0 <= i < |sent| ensures sent[i] == PromptParts(params, i) {
      RequestsAt(params, count, i);
    }
  }

  // ---------------------------------------------------------------------------
  // fileToBase64: the part of the FileReader data URL that is kept
  // ---------------------------------------------------------------------------

  /** The characters of `s` before its first comma (all of `s` if it has none). */
  function UpToComma(s: string): (r: string)
    ensures r <= s && ',' !in r
    ensures |r| == |s| || s[|r|] == ','
  {
    if s == [] || s[0] == ',' then [] else [s[0]] + UpToComma(s[1..])
  }

  /** The characters of `s` after its first comma, or None when it has no comma. */
  function AfterFirstComma(s: string): (r: Option<string>)
    ensures r.Some? <==> ',' in s
    ensures r.Some? ==> exists k :: 0 <= k < |s| && s[k] == ',' && ',' !in s[..k] && r.value == s[k + 1..]
  {
    if s == [] then None
    else if s[0] == ',' then
      assert s[..0] == [];
      Some(s[1..])
    else
      var r := AfterFirstComma(s[1..]);
      assert forall k :: 0 <= k < |s| - 1 ==> s[1..][..k] == s[1..k + 1] && s[..k + 1] == [s[0]] + s[1..][..k];
      r
  }

  /** `dataUrl.split(',')[1]`: the second comma-separated field, `undefined` (None)
      when the string has no comma. */
  function FileToBase64(dataUrl: string): (r: Option<string>)
    ensures r.Some? <==> ',' in dataUrl
    ensures r.Some? ==> ',' !in r.value
    ensures r.Some? ==>
              exists k :: 0 <= k < |dataUrl| && dataUrl[k] == ',' && ',' !in dataUrl[..k] &&
                r.value <= dataUrl[k + 1..] &&
                (k + 1 + |r.value| == |dataUrl| || dataUrl[k + 1 + |r.value|] == ',')
  {
    match AfterFirstComma(dataUrl)
    case None => None
    case Some(rest) => Some(UpToComma(rest))
  }

  lemma AfterFirstCommaAt(a: string, b: string)
    requires ',' !in a
    ensures AfterFirstComma(a + "," + b) == Some(b)
  {
    var s := a + "," + b;
    assert s[|a|] == ',' && s[..|a|] == a && s[|a| + 1..] == b;
    var r := AfterFirstComma(s);
    var k :| 0 <= k < |s| && s[k] == ',' && ',' !in s[..k] && r.value == s[k + 1..];
  }

  lemma {:induction false} UpToCommaWhole(s: string)
    requires ',' !in s
    ensures UpToComma(s) == s
  {
    if s != [] {
      assert s[0] in s;
      assert forall c :: c in s[1..] ==> c in s;
      UpToCommaWhole(s[1..]);
    }
  }

  /** Stripping the prefix of a data URL gives back its payload when neither the
      MIME type nor the payload holds a comma (base64 text never does). */
  lemma StripDataUrl(mimeType: string, data: string)
    requires ',' !in mimeType && ',' !in data
    ensures FileToBase64(DataUrl(mimeType, data)) == Some(data)
  {
    var a := "data:" + mimeType + ";base64";
    assert DataUrl(mimeType, data) == a + "," + data;
    assert forall c :: c in a ==> c in "data:;base64" || c in mimeType;
    AfterFirstCommaAt(a, data);
    UpToCommaWhole(data);
  }
}
