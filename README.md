# Product normalisation of the storefront products endpoint

The products endpoint fetches a page of products from the upstream store
API and turns each raw product record into a flat, display-ready record
with seven keys: `id`, `name`, `price`, `promotional_price`, `image_url`,
`url` and `stock`. This project models that normalisation in Dafny and
proves what it guarantees:

- `cleanString`: null and undefined become "". Any other value is
  stringified, every whitespace run becomes one space, and the result is
  trimmed.
- `cleanUrl`: cleans the string, then peels off leading `[` and trailing
  `]`, surrounding double quotes, then surrounding single quotes. It
  returns "" unless what remains starts with `http://` or `https://`,
  matched case-insensitively.
- `pickName`: the name is either plain text or a map of translations,
  tried in the order `pt`, `pt-BR`, `es`, `en`. The first truthy
  translation wins.
- `sumStock`: adds up the `stock` of every inventory level of a variant.
  A value that `Number` does not turn into a finite number counts as 0.
  The result is null when there is no inventory array.
- The per-product `map` builds the record. The `Array.isArray` guard
  turns any payload that is not an array into an empty list.

The upstream payload is modelled as a loosely typed JSON value
(`JsValue.Value`: undefined, null, booleans, numbers, strings, arrays,
objects). On it, optional chaining, truthiness, `||`, `??` and `== null`
behave as in JavaScript. `String(v)` and `Number(v)` do too, except on an
object that carries its own `toString` key (see "Left out").

Modules, one file each:

- `JsValue`: the value model and the JavaScript operators.
- `Clean`: `cleanString` and `cleanUrl`, with whitespace being exactly the
  characters of the regular-expression class `\s`.
- `Stock`: `Number(...)` on strings and values, and `sumStock` as a left
  fold, with a reference sum beside it.
- `Products`: `pickName`, the record and the list.
- `StockExamples` and `ProductsExamples`: worked examples.
- `Wrappers`: the option type.

Three facts about the code are worth stating up front:

- The record always has seven keys, `url` included.
- `stock` is a sum of arbitrary finite numbers, so it need not be an
  integer. A level with stock "2.5" adds 2.5.
- `cleanUrl` is not idempotent. `"https://x ]"` cleans to `"https://x "`,
  and cleaning that again gives `"https://x"`. Likewise `"https://x]'"`
  cleans to `"https://x]"`, which cleans to `"https://x"`. This happens
  because whitespace is trimmed before the brackets and quotes are
  stripped, and each bracket or quote is stripped only once, in a fixed
  order. The comment on `image_url`, which promises no spaces, brackets
  or quotes, overstates this. The model proves these counterexamples.
  It also proves idempotence under the condition that the first result
  does not end in whitespace, `]` or `"`.

## Model

| member | source | states |
|---|---|---|
| JsValue.IsNullish | api/products.js:54 | computes `v == null`: true of null and undefined only, which also decides `!= null` at lines 91 and 94; `Clean.CleanStringShape` and `Products.PriceTextIsCleanString` rely on it |
| JsValue.Truthy | api/products.js:71 | computes JavaScript truthiness: undefined, null, false, "", and a number whose text is "0" or "NaN" are falsy, everything else (arrays and objects included) truthy; `Products.PickNameOfFalsy` and `ProductsExamples.PickNameSkipsEmptyLocale` rely on it |
| JsValue.Or | api/products.js:74 | computes the logical or of `a` and `b`: the left operand when truthy, else the right one; `Products.LocaleChoiceIsFirstTruthy` relates the chain of them to the first truthy locale |
| JsValue.Coalesce | api/products.js:88 | computes `a ?? b`: the left operand unless it is null or undefined, as also at line 107; `Products.NormalizeId` and `Products.NormalizeWithoutVariant` rely on it |
| JsValue.Get | api/products.js:70 | computes an optional-chained property read `v?.key`: an object's own value for the key, else undefined, and undefined for every value that is not an object; `Products.NormalizeReadsFirstVariant` and `Products.NormalizeId` rely on it |
| JsValue.First | api/products.js:99 | computes `v?.[0]`: an array's first item, a string's first character (a code point), an object's key "0", else undefined, as also at line 88; `Products.NormalizeReadsFirstImage` and `Products.NormalizeWithoutVariant` rely on it |
| JsValue.ToStr | api/products.js:54 | computes `String(v)`: "undefined", "null", "true"/"false", a number's text, the string itself, array items joined by commas with null and undefined items empty, "[object Object]"; `Clean.CleanStringShape` states what cleaning makes of it |
| Stock.ToNumber | api/products.js:80 | computes `Number(v)`: undefined is NaN, null 0, booleans 1 and 0, numbers, strings, arrays and objects through their text; `Stock.NumberOfDecimalText`, `Stock.NumberIgnoresWhitespace` and `Stock.InnerWhitespaceIsNaN` state its contract |
| Stock.StringToNumber | api/products.js:80 | computes `Number(s)` for text: trim it, then parse it as a numeric literal; its contract is in the lemmas named for `Stock.ToNumber` |
| Stock.ParseNumeric | api/products.js:80 | computes the value of a trimmed numeric literal: "" is 0, `0x`/`0o`/`0b` integers, signed Infinity, signed decimals with fraction and exponent, anything else NaN; `StockExamples.NumberOf*` give instances |
| Clean.CleanString | api/products.js:53-54 | computes `cleanString`: "" for null and undefined, else `String(v)` collapsed and trimmed; `Clean.CleanStringShape` states its contract |
| Clean.Collapse | api/products.js:54 | computes `replace(/\s+/g, " ")`; `Clean.CollapseShape`, `Clean.CollapseKeepsText` and `Clean.CollapseMatchesScan` state its contract |
| Clean.Trim | api/products.js:54 | computes `trim()`: drops the leading and then the trailing whitespace; `Clean.TrimShape` and `Clean.TrimOfPadded` state its contract |
| Clean.CleanUrl | api/products.js:56-67 | computes `cleanUrl`: clean the string, then `Clean.UrlFrom`; `Clean.CleanUrlShape` states its contract |
| Clean.UrlFrom | api/products.js:60-66 | computes the rest of `cleanUrl`: strip the wrapping, then keep the text only if it passes the scheme test; `Clean.UrlFromShape` states its contract |
| Clean.StripWrapping | api/products.js:60-62 | computes the six anchored replaces in order: leading `[`, trailing `]`, leading and trailing `"`, leading and trailing `'`; `Clean.StripWrappingLast` and `Clean.StripWrappingKeepsCollapsed` state its contract |
| Clean.HasHttpScheme | api/products.js:65 | computes `/^https?:\/\//i.test(s)`: "http://" or "https://" at the start, ASCII letters in either case; `Clean.CleanUrlShape`, `Clean.UrlFromShape` and `Clean.CleanUrlFixedPoint` state results in terms of it |
| Products.PickName | api/products.js:69-75 | computes `pickName`: "" for a falsy name, a string name cleaned, else the cleaned locale choice; `Products.PickNameOfFalsy`, `Products.PickNameOfString`, `Products.PickNameOfLocale` and `Products.PickNameIsClean` state its contract |
| Products.LocaleChoice | api/products.js:74 | computes the chain of logical ors over `n.pt`, `n["pt-BR"]`, `n.es`, `n.en` and "": the first truthy operand, else the last; `Products.LocaleChoiceIsFirstTruthy` states its contract |
| Stock.Contribution | api/products.js:80-81 | computes what one level adds: its stock as a number when finite, else 0; `Stock.UnparsableAddsNothing` and `Stock.IntegerStockContributes` state its contract |
| Stock.SumStock | api/products.js:77-83 | computes `sumStock`: null without an inventory array, else the `reduce` of the contributions from 0; `Stock.SumStockSpec` states its contract |
| Products.FirstVariant | api/products.js:88 | computes `p?.variants?.[0] ?? null`; `Products.NormalizeReadsFirstVariant` and `Products.NormalizeWithoutVariant` state what the record takes from it |
| Products.PriceText | api/products.js:90-96 | computes a price field: cleaned when not null or undefined, else ""; `Products.PriceTextIsCleanString` and `Products.PriceKeepsText` state its contract |
| Products.Normalize | api/products.js:85-115 | computes the seven-key record of one product; the `Products.Normalize*` lemmas and `ProductsExamples.NormalizeSample` state its contract |
| Clean.CleanStringShape | api/products.js:53-54 | null and undefined give ""; every result is trimmed with no two adjacent whitespace characters; a non-null input keeps exactly its non-whitespace characters of `String(v)`, in order; and the result is exactly the words of `String(v)` (maximal runs without whitespace) with one space between each two |
| Clean.CleanStringKeepsWords | api/products.js:54 | splitting the cleaned text into words gives exactly the words of `String(v)`: no word is split, merged or lost |
| Clean.TrimCollapseWords | api/products.js:54 | `replace(/\s+/g, " ").trim()` of any text is its words joined by single spaces |
| Clean.WordsOfJoin | api/products.js:54 | splitting words joined by single spaces gives the same words back |
| Clean.WordsAreWords | api/products.js:54 | every word of a text is non-empty and free of whitespace |
| Clean.CollapseMatchesScan | api/products.js:54 | the run-by-run definition of `replace(/\s+/g, " ")` agrees on every string with the left-to-right scan that emits one space at the start of each whitespace run and drops the rest of the run |
| Clean.CleanStringFixedPoints | api/products.js:53-54 | a string is left unchanged by `cleanString` exactly when it is already trimmed and single-spaced |
| Clean.CleanStringIdempotent | api/products.js:53-54 | cleaning the cleaned string changes nothing |
| Clean.CollapseShape | api/products.js:54 | `replace(/\s+/g, " ")` leaves no two adjacent whitespace characters, is empty only for empty input, and starts with whitespace exactly when the input does |
| Clean.CollapseKeepsText | api/products.js:54 | collapsing keeps every non-whitespace character, in order |
| Clean.CollapseOfCollapsed | api/products.js:54 | collapsing changes nothing in text whose only whitespace is single plain spaces |
| Clean.TrimShape | api/products.js:54 | `trim()` leaves no whitespace at either end, keeps the non-whitespace characters and keeps single spacing |
| Clean.TrimOfPadded | api/products.js:54 | whitespace, then trimmed text, then whitespace, trims to exactly that text: only the two ends are removed and inner whitespace is kept |
| Clean.TrimOfTrimmed | api/products.js:54 | trimming trimmed text changes nothing |
| Clean.CleanStringExample | api/products.js:53-54 | "  a\n\tb  " cleans to "a b" |
| Clean.StripWrappingKeepsCollapsed | api/products.js:60-62 | stripping brackets and quotes keeps single spacing |
| Clean.StripWrappingLast | api/products.js:60-62 | after the strips the text never ends with a single quote |
| Clean.CleanUrlShape | api/products.js:56-67 | every result is "" or starts with http:// or https:// in any letter case; it is single-spaced and never ends with a single quote |
| Clean.UrlFromShape | api/products.js:60-66 | the same three facts for the strip-and-check step applied to any single-spaced text |
| Clean.CleanUrlStripsWrapping | api/products.js:59-66 | a clean http(s) URL that does not end in `]`, `"` or `'`, put inside any number of single quotes, then double quotes, then brackets, on each side, comes back bare |
| Clean.CleanUrlUnwrapsBrackets | api/products.js:59-60 | "[https://x.com/a.png]" gives "https://x.com/a.png" |
| Clean.CleanUrlUnwrapsQuotes | api/products.js:59-61 | "\"https://cdn/x.jpg\"" gives "https://cdn/x.jpg" |
| Clean.CleanUrlFixedPoint | api/products.js:56-67 | a clean http(s) URL that does not end in `]`, `"` or `'` is returned unchanged, letter case included |
| Clean.CleanUrlKeepsSchemeCase | api/products.js:65-66 | "HTTPS://Example.com" is returned as it is |
| Clean.CleanUrlRejects | api/products.js:60-65 | cleaned text that is empty or starts with anything but `[`, `"`, `'`, `h` or `H` gives "" |
| Clean.CleanUrlRejectsNonUrls | api/products.js:56-67 | "not a url", "" and null all give "" |
| Clean.CleanUrlOfEmpty | api/products.js:56-67 | the empty string gives "" |
| Clean.CleanUrlIdempotentUnlessTrailingJunk | api/products.js:56-67 | cleaning a result again changes nothing when the result does not end in whitespace, `]` or `"` |
| Clean.CleanUrlKeepsSpaceBeforeBracket | api/products.js:57-62 | for every whitespace-free http(s) URL u not ending in `]`, `"` or `'`: u + " ]" gives u + " ", which gives u, so the result is not a fixed point |
| Clean.CleanUrlKeepsBracketBeforeQuote | api/products.js:60-62 | for every whitespace-free http(s) URL u not ending in `]`, `"` or `'`: u + "]'" gives u + "]", which gives u, so the result is not a fixed point |
| Clean.CleanUrlNotIdempotent | api/products.js:56-67 | the two concrete counterexamples with "https://x" |
| Stock.NumberOfDecimalText | api/products.js:80 | `Number` of the decimal text of any integer is that integer |
| Stock.NumberIgnoresWhitespace | api/products.js:80 | `Number` ignores surrounding whitespace, and blank text converts to 0 |
| Stock.InnerWhitespaceIsNaN | api/products.js:80-81 | text that still holds whitespace after trimming, such as "1 2", converts to NaN, so it adds nothing to the stock |
| Stock.FoldIsSum | api/products.js:79-82 | the `reduce` from an initial value equals that value plus the reference sum |
| Stock.SumStockSpec | api/products.js:77-83 | null exactly when `inventory_levels` is not an array, and otherwise the sum of the contributions |
| Stock.SumStockSplits | api/products.js:79-82 | the sum over two consecutive runs of levels is the sum of their sums |
| Stock.UnparsableAddsNothing | api/products.js:80-81 | a level whose stock is not a finite number adds nothing |
| Stock.TotalNonNegative | api/products.js:79-82 | when no level contributes a negative amount the sum is not negative |
| Stock.IntegerStockContributes | api/products.js:80-81 | a level whose stock is an integer, as a number or as digits, contributes that integer |
| StockExamples.NumberOfFraction | api/products.js:80 | `Number("2.5")`, on the trimmed text, is 2.5 |
| StockExamples.NumberOfExponent | api/products.js:80 | `Number("1e+2")` is 100 |
| StockExamples.NumberOfHex | api/products.js:80 | `Number("0x1F")` is 31 |
| StockExamples.NumberOfNegative | api/products.js:80 | `Number("-3")` is -3 |
| StockExamples.NumberOfInfinity | api/products.js:80-81 | `Number("-Infinity")` is negative infinity, not a finite number |
| StockExamples.NumberOfJunk | api/products.js:80-81 | `Number("bad")` is NaN |
| StockExamples.NumberOfInnerSpace | api/products.js:80-81 | `Number("1 2")` is NaN |
| StockExamples.SumStockExamples | api/products.js:77-83 | an empty inventory gives 0; a missing inventory, a null variant, or a string where the array should be gives null |
| StockExamples.SumStockMixed | api/products.js:77-83 | the levels "3", "bad" and 2 sum to 5 |
| Products.LocaleChoiceIsFirstTruthy | api/products.js:74 | the `||` chain equals the first truthy translation in the order pt, pt-BR, es, en, else "" |
| Products.FirstTruthyAt | api/products.js:74 | the first truthy locale decides, whatever later locales hold |
| Products.FirstTruthyNone | api/products.js:74 | with no truthy locale the chain gives "" |
| Products.PickNameOfFalsy | api/products.js:70-71 | a missing, null, empty or otherwise falsy name gives "" |
| Products.PickNameOfString | api/products.js:72 | a string name gives that string cleaned |
| Products.PickNameOfLocale | api/products.js:73-74 | a translated name gives the cleaned first truthy translation among pt, pt-BR, es, en |
| Products.PickNameOfNoLocale | api/products.js:74 | a translated name with no truthy translation gives "" |
| Products.PickNameIsClean | api/products.js:69-75 | every picked name is trimmed and single-spaced |
| Products.PriceTextIsCleanString | api/products.js:90-96 | each price is the cleaned field of the first variant; the `!= null` guard agrees with `cleanString`'s own null case |
| Products.PriceKeepsText | api/products.js:90-91 | a price is never converted to a number: a clean numeric or string field keeps its characters |
| Products.NormalizeReadsFirstVariant | api/products.js:88-104 | both prices and the stock depend only on the first variant |
| Products.NormalizeWithoutVariant | api/products.js:88-104 | without a first variant both prices are "" and the stock is null |
| Products.NormalizeStock | api/products.js:104 | the stock is null exactly when the first variant has no inventory array, and otherwise its total |
| Products.NormalizeId | api/products.js:107 | the id is copied unless it is null or missing, and is then null; it is never undefined |
| Products.NormalizeTextIsClean | api/products.js:86-96 | name, price and promotional price are trimmed and single-spaced |
| Products.NormalizeUrls | api/products.js:99-102 | the image link and the product link are "" or start with http(s):// |
| Products.NormalizeReadsFirstImage | api/products.js:99 | the image link comes from the first image only |
| Products.MapSeq | api/products.js:85 | `map` gives one result per element, in the same order |
| Products.MapProducts | api/products.js:50-115 | a payload that is not an array gives no records (the `Array.isArray` guard at line 50); an array gives one record per product, in order, each the normalised product |
| Products.MapSeqAppend | api/products.js:85 | mapping a concatenation concatenates the mapped parts |
| Products.MapProductsAppend | api/products.js:85-115 | products are normalised independently and in order |
| ProductsExamples.PickNamePrefersPortuguese | api/products.js:74 | {pt: "Vestido", en: "Dress"} gives "Vestido" |
| ProductsExamples.PickNameSkipsEmptyLocale | api/products.js:74 | {pt: "", en: "Dress"} gives "Dress" |
| ProductsExamples.PickNameOfMissing | api/products.js:70-71 | no name, an empty name, or a null product gives "" |
| ProductsExamples.NormalizeSample | api/products.js:85-115 | a product with id 7, a Portuguese name, one variant priced "19.90" with one level of 2, a bracketed image and an upper-case link normalises to the expected seven fields |
| ProductsExamples.MapProductsOfObject | api/products.js:50 | an object payload maps to no products |

## Left out

- The HTTP shell of the handler is not modelled: environment checks, building the request URL, `fetch`, `JSON.parse`, error responses, `res.status(...).json(...)` and the `page`/`per_page` defaults (api/products.js:3-47, 116-129). The model starts from the parsed payload.
- api/auth-callback.js is not part of this model. It only reads environment variables, POSTs a token request and relays the response.
- Floating point is not modelled. Numbers are exact rationals. Rounding, overflow of huge literals to infinity, and precision loss in long sums are not captured.
- `String(n)` of a number is not computed. A JSON number is held by the text that `String(n)` gives for it.
- Property access models only the keys the normaliser reads. Built-in properties such as `length` are absent.
- JsValue.ToStr, Stock.ToNumber: an object whose own `toString` key holds data (or an array holding such an object) makes `String(v)` and `Number(v)` throw a TypeError. In the code that throw escapes the `map` and the whole request answers 500 (api/products.js:54, 80, 85, 123-128). The model prints such an object as "[object Object]" and converts it to NaN, so it yields a normal record instead of the error. Method lookup through the prototype chain is not modelled.
- A string's first element is its first code point, not its first UTF-16 unit.
- Clean.CleanUrlShape: does not promise "no trailing whitespace, brackets or quotes", because the code does not guarantee it (see the counterexample lemmas).
