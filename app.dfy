/** The form's state and its submit and copy handlers (App.tsx). The React state
    hooks become the fields of AppState; each setter call becomes an assignment. The
    clock, the FileReader outcome and the model's replies are parameters. */
module App {
  import opened Types
  import Decimal
  import Catalog
  import GeminiService

  /** A chosen logo file. Only its `type` is read directly; its contents reach the
      model through FileReader (see FileRead). */
  datatype LogoFile = LogoFile(mimeType: string)

  /** How `FileReader.readAsDataURL` ended: with its result string, or with an error
      event (which is not an `Error` object). */
  datatype FileRead = Loaded(dataUrl: string) | ReadFailed

  /** How the `try` block of handleGenerateClick ended: resolved with the images,
      threw an `Error` with this message, or threw something that is not an `Error`. */
  datatype TryOutcome = Resolved(images: seq<string>) | ThrewError(message: string) | ThrewOther

  const DefaultStyle: string := "Modern and eye-catching"
  const UnknownError: string := "An unknown error occurred."

  /** `MB-` followed by the last six characters of the clock's decimal rendering. */
  function OrderId(now: nat): string
  {
    "MB-" + Decimal.Last(Decimal.NatToString(now), 6)
  }

  /** What an order id looks like: the `MB-` prefix and one to six digits. */
  predicate IsOrderId(id: string)
  {
    && 4 <= |id| <= 9
    && id[..3] == "MB-"
    && Decimal.AllDigits(id[3..])
  }

  /** An order id has the expected form; its digits are the clock value modulo 10^6;
      it has all six digits exactly when the clock reads at least 100000. */
  lemma OrderIdFormat(now: nat)
    ensures IsOrderId(OrderId(now))
    ensures Decimal.ParseNat(OrderId(now)[3..]) == now % 1000000
    ensures |OrderId(now)| == 9 <==> now >= 100000
  {
    var digits := Decimal.Last(Decimal.NatToString(now), 6);
    assert OrderId(now)[3..] == digits;
    Decimal.LastDigits(now, 6);
    Decimal.NatToStringLength(now, 5);
    assert Decimal.Pow10(5) == 100000;
    assert Decimal.Pow10(6) == 1000000;
  }

  /** The parameters the form submits, once the logo (if any) has been read. */
  function SubmittedParams(brandName: string, tagline: string, style: string,
                           logoFile: Option<LogoFile>, read: FileRead, tier: PackageTier)
    : GenerationParams
    requires logoFile.Some? ==> read.Loaded?
  {
    GenerationParams(
      brandName, tagline, style,
      if logoFile.Some? then GeminiService.FileToBase64(read.dataUrl) else None,
      if logoFile.Some? then Some(logoFile.value.mimeType) else None,
      tier)
  }

  /** The MIME type is absent exactly when no logo file is set, and is otherwise the
      file's type; the logo is sent with the request exactly when a file is set, its
      type is non-empty and its data URL has a non-empty field after the first comma. */
  lemma SubmittedLogo(brandName: string, tagline: string, style: string,
                      logoFile: Option<LogoFile>, read: FileRead, tier: PackageTier)
    requires logoFile.Some? ==> read.Loaded?
    ensures var p := SubmittedParams(brandName, tagline, style, logoFile, read, tier);
            && (p.logoMimeType.None? <==> logoFile.None?)
            && (logoFile.Some? ==> p.logoMimeType == Some(logoFile.value.mimeType))
            && (GeminiService.HasLogo(p) <==>
                  logoFile.Some? && logoFile.value.mimeType != "" &&
                  Truthy(GeminiService.FileToBase64(read.dataUrl)))
  {
  }

  /** What the `try` block of handleGenerateClick settles to. */
  function TryBlock(brandName: string, tagline: string, style: string, logoFile: Option<LogoFile>,
                    tier: PackageTier, read: FileRead, reply: nat -> GeminiService.Response)
    : TryOutcome
  {
    if logoFile.Some? && read.ReadFailed? then ThrewOther
    else
      match GeminiService.Generate(Catalog.Packages, SubmittedParams(brandName, tagline, style, logoFile, read, tier), reply)
      case Success(images) => Resolved(images)
      case Failure(message) => ThrewError(message)
  }

  /** The `try` block itself: read the logo if one is set, then call the generation
      service with the submitted parameters. */
  method RunTryBlock(brandName: string, tagline: string, style: string, logoFile: Option<LogoFile>,
                     tier: PackageTier, read: FileRead, reply: nat -> GeminiService.Response)
    returns (outcome: TryOutcome)
    ensures outcome == TryBlock(brandName, tagline, style, logoFile, tier, read, reply)
    ensures outcome.Resolved? ==> outcome.images != []
  {
    TryBlockOutcomes(brandName, tagline, style, logoFile, tier, read, reply);
    if logoFile.Some? && read.ReadFailed? {
      return ThrewOther;
    }
    var params := SubmittedParams(brandName, tagline, style, logoFile, read, tier);
    var result, sent := GeminiService.GenerateMarketingImages(Catalog.Packages, params, reply);
    outcome := if result.Success? then Resolved(result.value) else ThrewError(result.message);
  }

  /** A failed logo read surfaces as a non-`Error` rejection; a success yields as many
      previews as the package grants, at least one, each a `data:` URL; an `Error`
      always names a variation of the package, never an invalid package. */
  lemma TryBlockOutcomes(brandName: string, tagline: string, style: string, logoFile: Option<LogoFile>,
                         tier: PackageTier, read: FileRead, reply: nat -> GeminiService.Response)
    ensures var o := TryBlock(brandName, tagline, style, logoFile, tier, read, reply);
            var n := Catalog.Find(Catalog.Packages, tier).value.imageCount;
            && Catalog.Find(Catalog.Packages, tier).Some?
            && (o.ThrewOther? <==> logoFile.Some? && read.ReadFailed?)
            && (o.Resolved? ==>
                  && |o.images| == n >= 1
                  && forall k :: 0 <= k < |o.images| ==> "data:" <= o.images[k])
            && (o.ThrewError? ==>
                  exists i :: 0 <= i < n && o.message == GeminiService.VariationMessage(i))
  {
    Catalog.FindIsTotal(tier);
    if !(logoFile.Some? && read.ReadFailed?) {
      var params := SubmittedParams(brandName, tagline, style, logoFile, read, tier);
      assert params.packageTier == tier;
      var g := GeminiService.Generate(Catalog.Packages, params, reply);
      assert TryBlock(brandName, tagline, style, logoFile, tier, read, reply) ==
             if g.Success? then Resolved(g.value) else ThrewError(g.message);
    }
  }

  class AppState {
    var brandName: string
    var tagline: string
    var logoFile: Option<LogoFile>
    var style: string
    var selectedPackage: PackageTier
    var isLoading: bool
    var error: Option<string>
    var generatedImages: seq<string>
    var orderId: Option<string>
    var copied: bool

    /** Combinations the handlers never produce: nothing is shown while loading, an
        error never comes with previews, and an order id is shown with previews only. */
    ghost predicate Valid()
      reads this
    {
      && (isLoading ==> error.None? && generatedImages == [] && orderId.None?)
      && (error.Some? ==> generatedImages == [] && orderId.None?)
      && (orderId.None? <==> generatedImages == [])
      && (orderId.Some? ==> IsOrderId(orderId.value))
    }

    /** The initial state of the hooks. */
    constructor ()
      ensures Valid()
      ensures brandName == "" && tagline == "" && logoFile.None? && style == DefaultStyle
      ensures selectedPackage == Basic && !isLoading && error.None?
      ensures generatedImages == [] && orderId.None? && !copied
    {
      brandName := "";
      tagline := "";
      logoFile := None;
      style := DefaultStyle;
      selectedPackage := Basic;
      isLoading := false;
      error := None;
      generatedImages := [];
      orderId := None;
      copied := false;
    }

    /** The submit guard, which is also what disables the submit button. */
    predicate SubmitDisabled()
      reads this
    {
      isLoading || brandName == "" || tagline == ""
    }

    /** The catalog entry of the selected package, whose price the order panel shows. */
    function SelectedPackageInfo(): (info: Option<PackageOption>)
      reads this
      ensures info.Some? && info.value.id == selectedPackage && info.value.imageCount >= 1
    {
      Catalog.FindIsTotal(selectedPackage);
      Catalog.Find(Catalog.Packages, selectedPackage)
    }

    /** The synchronous part of handleGenerateClick, up to its first `await`: the
        guard, then the reset to the loading state. */
    method StartGeneration() returns (accepted: bool)
      requires Valid()
      modifies this`isLoading, this`error, this`generatedImages, this`orderId
      ensures Valid()
      ensures accepted == !old(SubmitDisabled())
      ensures !accepted ==> unchanged(this)
      ensures accepted ==> isLoading && error.None? && generatedImages == [] && orderId.None?
    {
      if isLoading || brandName == "" || tagline == "" {
        return false;
      }
      isLoading := true;
      error := None;
      generatedImages := [];
      orderId := None;
      return true;
    }

    /** The rest of handleGenerateClick once the `try` block has settled: record the
        images and a fresh order id, or the error's message (or the fixed text for a
        non-`Error` rejection), then clear the loading flag in `finally`. A resolved
        outcome always carries at least one image (see TryBlockOutcomes). */
    method FinishGeneration(outcome: TryOutcome, now: nat)
      requires Valid() && isLoading
      requires outcome.Resolved? ==> outcome.images != []
      modifies this`isLoading, this`error, this`generatedImages, this`orderId
      ensures Valid() && !isLoading
      ensures outcome.Resolved? ==>
                generatedImages == outcome.images && orderId == Some(OrderId(now)) && error.None?
      ensures outcome.ThrewError? ==>
                error == Some(outcome.message) && generatedImages == [] && orderId.None?
      ensures outcome.ThrewOther? ==>
                error == Some(UnknownError) && generatedImages == [] && orderId.None?
    {
      match outcome {
        case Resolved(images) =>
          generatedImages := images;
          OrderIdFormat(now);
          orderId := Some(OrderId(now));
        case ThrewError(message) =>
          error := Some(message);
        case ThrewOther =>
          error := Some(UnknownError);
      }
      isLoading := false;
    }

    /** handleGenerateClick: guard and reset, read the logo and generate, then settle. */
    method HandleGenerateClick(read: FileRead, reply: nat -> GeminiService.Response, now: nat)
      requires Valid()
      modifies this`isLoading, this`error, this`generatedImages, this`orderId
      ensures Valid()
      ensures old(SubmitDisabled()) ==> unchanged(this)
      ensures !old(SubmitDisabled()) ==>
                && !isLoading
                && var outcome := TryBlock(brandName, tagline, style, logoFile, selectedPackage, read, reply);
                   && (outcome.Resolved? ==>
                         generatedImages == outcome.images && orderId == Some(OrderId(now)) && error.None?)
                   && (outcome.ThrewError? ==>
                         error == Some(outcome.message) && generatedImages == [] && orderId.None?)
                   && (outcome.ThrewOther? ==>
                         error == Some(UnknownError) && generatedImages == [] && orderId.None?)
    {
      var accepted := StartGeneration();
      if !accepted {
        return;
      }
      var outcome := RunTryBlock(brandName, tagline, style, logoFile, selectedPackage, read, reply);
      FinishGeneration(outcome, now);
    }

    /** handleCopyOrderId: sets the copied flag when an order id is shown, and
        otherwise changes nothing. */
    method HandleCopyOrderId()
      requires Valid()
      modifies this`copied
      ensures Valid()
      ensures copied == (old(copied) || old(orderId).Some?)
    {
      if Truthy(orderId) {
        copied := true;
      }
    }
  }
}
