# Marketing image generator: a Dafny model

This project models the core of a small web app that makes watermarked marketing
previews. The user types a brand name, a tagline and a style, may attach a logo,
and picks one of three packages (Basic, Pro, Premium). The app then asks an image
model for as many variations as the package grants and shows them with an order
id, which the user copies before paying.

The model has five modules:

- `Types` (types.ts): the package tiers, catalog entries and generation
  parameters, plus `Option` for `null`/`undefined` and `Result` for a promise
  that resolves or rejects with an `Error`.
- `Catalog` (constants.ts): the three-entry package table and the
  `PACKAGES.find(p => p.id === tier)` lookup.
- `Decimal`: how JavaScript renders an integer in decimal and how `slice(-6)`
  keeps its last six characters. Both the variation number and the order id
  use them.
- `GeminiService` (services/geminiService.ts):
  - `generatePrompt`, as a method that builds the text step by step, and its
    specification `PromptParts`;
  - the scan of a response for the first inline image;
  - the per-variation task and its error wrapping;
  - the loop in `generateMarketingImages` that starts one task per image;
  - `Promise.all` modelled as `AwaitAll`;
  - what `fileToBase64` keeps of a data URL.
- `App` (App.tsx): the form state as the class `AppState`, with one field per
  `useState` hook.
  - `handleGenerateClick` is split at its `await`s. `StartGeneration` does the
    guard and the reset (App.tsx:26-31). `RunTryBlock` is the `try` block up to
    and including the awaited generation call, with its result as a value
    (App.tsx:33-44). `FinishGeneration` is the rest of the `try` (storing the
    previews and the order id), the `catch` and the `finally` (App.tsx:46-52).
  - `handleCopyOrderId` is a method of its own.
  - The order-id format is stated and proved.

The image model is not called. Its answer to the call for variation `i` is a
parameter, `reply(i)`. `GenerateMarketingImages` also returns the list of
requests it issued (`sent`). The clock (`Date.now()`) and the result of the
`FileReader` are parameters as well. `GenerateMarketingImages` takes the catalog
as a parameter; the app always passes `Catalog.Packages`, the table from
constants.ts.

## Model

| member | source | states |
|---|---|---|
| Catalog.Find | constants.ts:4-26 | The lookup succeeds exactly when some entry has the tier as its id. It then returns the first such entry. |
| Catalog.CatalogShape | constants.ts:4-26 | The catalog holds Basic, Pro and Premium in that order. The ids are distinct. Every entry grants at least one image. |
| Catalog.FindIsTotal | services/geminiService.ts:51-54 | Every tier is found in the catalog, so "Invalid package selected" never happens in the app. The entry found has the asked-for id and at least one image. |
| Catalog.TierTerms | constants.ts:6-24 | Basic costs "$10" for 1 image. Pro costs "$25" for 3 images. Premium costs "$50" for 5 images. |
| Decimal.NatToString | services/geminiService.ts:32 | The decimal rendering is a non-empty string of digits. It has no leading zero unless the number is 0. |
| Decimal.ParseNatToString | services/geminiService.ts:32 | Reading the rendered digits back gives the number, so nothing is lost. |
| Decimal.NatToStringInjective | services/geminiService.ts:32 | Distinct numbers render as distinct strings. |
| Decimal.NatToStringLength | App.tsx:47 | For k >= 1, a number has more than k digits exactly when it is at least 10^k. |
| Decimal.Last | App.tsx:47 | For k >= 1, `slice(-k)` keeps the last k characters, or the whole string when it is shorter. |
| Decimal.LastDigits | App.tsx:47 | The last k digits of n are digits, and their value is n mod 10^k. |
| GeminiService.PromptPartsShape | services/geminiService.ts:35-47 | A request has one part without a logo and two with one. The logo part comes first and carries the data and MIME type unchanged. The text part comes last and begins with the template. |
| GeminiService.GeneratePrompt | services/geminiService.ts:21-48 | The method that builds the text with `+=` and the parts with `push` returns exactly `PromptParts`. |
| GeminiService.VariationHintIff | services/geminiService.ts:31-33 | The text after the template starts with "\nThis is variation " exactly when the index is above 0. It then carries the number index + 1. |
| GeminiService.LogoSentenceIff | services/geminiService.ts:36-44 | The text ends with the logo instruction exactly when both the logo data and its MIME type are non-empty. |
| GeminiService.PromptsDistinct | services/geminiService.ts:31-32 | Two different variation indexes never produce the same request. |
| GeminiService.FirstImageUrl | services/geminiService.ts:70-74 | A URL is found exactly when some part holds inline data. The URL is `data:<mime>;base64,<data>` of the first such part. |
| GeminiService.FindImage | services/geminiService.ts:70-74 | The `for…of` loop with its early return finds the URL that `FirstImageUrl` specifies. |
| GeminiService.VariationOutcome | services/geminiService.ts:60-80 | A variation succeeds exactly when the call answered and the answer has an inline image. Its value is that first image's data URL, which begins with "data:". Every failure, including "no image data", becomes "Failed to generate image variation <i+1>". |
| GeminiService.GenerateVariation | services/geminiService.ts:60-80 | The task for index i sends `PromptParts(params, i)` and settles to `VariationOutcome(i, reply(i))`. |
| GeminiService.AwaitAll | services/geminiService.ts:84 | The aggregate succeeds exactly when every outcome succeeds, and it then keeps all values in index order. Otherwise it rejects with the message of some failed outcome. |
| GeminiService.RequestsAt | services/geminiService.ts:58-64 | Request i of the loop is the prompt for variation i. |
| GeminiService.OutcomesAt | services/geminiService.ts:58-82 | Outcome i of the loop is what variation i's task settles to. |
| GeminiService.Generate | services/geminiService.ts:50-85 | The result for an unlisted tier is "Invalid package selected". Otherwise it succeeds exactly when all imageCount variations succeed. It then returns imageCount data URLs in index order. A failure carries some failed variation's message. |
| GeminiService.GenerateMarketingImages | services/geminiService.ts:50-85 | The loop's result is `Generate`. It issues no request for an unlisted tier. Otherwise it issues exactly imageCount requests, and request i is the prompt for variation i. |
| GeminiService.AfterFirstComma | services/geminiService.ts:17 | There is a result exactly when the string has a comma. The result is the text after the first comma. |
| GeminiService.FileToBase64 | services/geminiService.ts:17 | `split(',')[1]` is present exactly when the data URL has a comma. It is then the text after the first comma, up to the next comma or the end, and holds no comma. |
| GeminiService.StripDataUrl | services/geminiService.ts:17 | Stripping a comma-free `data:<mime>;base64,<data>` URL gives back `<data>`. |
| App.OrderIdFormat | App.tsx:47 | An order id is "MB-" followed by one to six digits. The digits read as the clock value mod 1000000. The id has all six digits exactly when the clock reads at least 100000. |
| App.SubmittedLogo | App.tsx:34-44 | The MIME type is absent exactly when no file is chosen, and otherwise it is the file's type. The logo goes into the request exactly when a file is chosen, its type is non-empty, and its base64 field is non-empty. |
| App.TryBlockOutcomes | App.tsx:33-49 | A failed logo read surfaces as a non-`Error` rejection. A successful run yields as many previews as the package grants, at least one, each a data URL. An `Error` always names one of the package's variations. |
| App.RunTryBlock | App.tsx:33-44 | The `try` block settles to `TryBlock`, and a resolved run has at least one image. |
| App.AppState.constructor | App.tsx:12-22 | This is the initial state of every hook, including the default style "Modern and eye-catching" and the Basic package. |
| App.AppState.SelectedPackageInfo | App.tsx:63 | The entry found for the selected package always exists, has that id and grants at least one image. |
| App.AppState.StartGeneration | App.tsx:26-31 | A submission is accepted exactly when the form is not loading and both brand name and tagline are non-empty. A refused submission changes nothing. An accepted one enters loading and clears the error, the previews and the order id. |
| App.AppState.FinishGeneration | App.tsx:46-52 | Success stores the previews and a fresh order id. An `Error` stores its message. Anything else stores "An unknown error occurred.". Loading always ends, and the state invariant holds. |
| App.AppState.HandleGenerateClick | App.tsx:24-53 | A disabled submit changes nothing. Otherwise loading ends with previews and an order id, or an error text, matching `TryBlock`. Nothing is shown while loading. An error never comes with previews. An order id appears exactly when previews do, and it is well formed. |
| App.AppState.HandleCopyOrderId | App.tsx:55-61 | The copied flag is set exactly when an order id is shown; otherwise nothing changes. The invariant is kept. |

## Left out

- The Gemini client, the model name, the API key and its console check (services/geminiService.ts:6-11) are external I/O. The answer to each call is a parameter.
- `fileToBase64`'s `FileReader` is I/O. Its outcome comes in as `FileRead`, and only the `split(',')[1]` of the result is modelled.
- `Promise.all`'s concurrency is not modelled. The tasks are modelled in index order, and a rejection's timing is not.
- GeminiService.AwaitAll: promises only that the message is that of *some* failed variation. In the source, the first rejection in time wins, and that depends on the network. The fold happens to report the lowest failing index.
- GeminiService.Response: a call that throws and a response with no first candidate are both `CallFailed`; both end in the same variation error. An inline-data part whose fields are missing (rendered as "undefined") is not modelled.
- The reply to a call is indexed by the variation rather than computed from the request. The requests are exposed through `sent` and `GenerateVariation`'s `request` result instead.
- `Date.now()` is the parameter `now`. It is a natural number, and its decimal rendering is correct only below 10^21, where JavaScript switches to exponent notation.
- The clipboard write, the two-second `setTimeout` that clears `copied`, and `console.error` are I/O or timers and are left out.
- The JSX rendering and the components under components/ are presentation and are not part of this model. The form setters are the public fields of `AppState`.
- React's batching of state updates and the re-creation of the `useCallback` closure are not modelled. Each handler reads the current fields.
