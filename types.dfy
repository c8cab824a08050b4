/** Shapes shared by the catalog, the generation service and the app (types.ts),
    plus the optional and failing-or-succeeding values the TypeScript code expresses
    with `null`/`undefined` and with thrown `Error`s. */
module Types {

  /** `null` or `undefined` (None) versus a present value. */
  datatype Option<+T> = None | Some(value: T)

  /** A promise that resolves with `value` or rejects with an `Error` whose
      message is `message`. */
  datatype Result<+T> = Success(value: T) | Failure(message: string)

  /** The three purchasable packages (enum PackageTier). */
  datatype PackageTier = Basic | Pro | Premium

  /** One catalog entry (interface PackageOption). The price is a display string. */
  datatype PackageOption = PackageOption(
    id: PackageTier,
    name: string,
    price: string,
    imageCount: nat,
    description: string)

  /** What the form hands to the generation service (interface GenerationParams). */
  datatype GenerationParams = GenerationParams(
    brandName: string,
    tagline: string,
    style: string,
    logoBase64: Option<string>,
    logoMimeType: Option<string>,
    packageTier: PackageTier)

  /** JavaScript truthiness of a `string | null | undefined`: present and non-empty. */
  predicate Truthy(s: Option<string>)
  {
    s.Some? && s.value != ""
  }
}
