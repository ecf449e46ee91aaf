# Storefront core in Dafny

This project models the decision logic of a small Next.js storefront. It covers:

- the cart store (`addToCart`, `removeFromCart`, `clearCart`, `totalItems`, `totalPrice`);
- the shop page's facet filter pipeline, its set and single-select toggles, and its grid width map;
- the form-submission webhook (`verifySignature` and the ordered status decision of `POST`);
- the mock auth store (`login`, `logout`);
- the route middleware's path and bearer-token decision;
- the navigation bar's `isActive` and `classNames`.

Stores are immutable state values with pure transition functions.

Everything outside the model enters as a parameter:

- HMAC-SHA256 is a function from key and message to digest bytes.
- `Number(...)` is a function to a JS number: NaN, ±Infinity, or a finite real.
- `JSON.parse` is a function that returns `None` when it throws.
- `jwt.verify(token, JWT_SECRET)` is a predicate on the token.
- The clock is an integer `now` in seconds, and `new Date()` is an integer `receivedAt`.
- The database write is a predicate on the record: true when connecting and creating both succeed.

Prices are whole cents. A missing sale price is `None`.

Modules, one per source file plus shared helpers:

- `JsValues`: nullable values, JSON documents, truthiness, `||`, `??`, property reads.
- `Seqs`: `Array.prototype.filter` and its laws.
- `Text`: `startsWith`, `includes`, `toLowerCase`, `split`, `join`.
- `ClassNames`: the `classNames` helper, which is defined identically in the two components.
- `Catalog`: the product record and its effective price.
- `CartStore`: `src/store/useCartStore.js`.
- `ShopFilter`: `src/components/shop/Section1.jsx`.
- `Hex`: Node's hex encoding and decoding.
- `Webhook`: `src/app/api/webhook/route.js`.
- `AuthStore`: `src/store/useAuthStore.js`.
- `Middleware`: `src/app/middleware.js`.
- `Navbar`: `src/components/Navbar/Navbar.jsx`.

## Model

| member | source | states |
|---|---|---|
| ClassNames.ClassNames | src/components/Navbar/Navbar.jsx:8-10 | every truthy argument, multi-class strings included, is contained in the result |
| ClassNames.ClassNamesCons | src/components/Navbar/Navbar.jsx:8-10 | for any arguments: a falsy first argument is dropped; a truthy one is put in front, followed by one space only when the rest is non-empty |
| ClassNames.ClassNamesExample | src/components/Navbar/Navbar.jsx:8-10 | a multi-class string, a falsy conditional class and a chosen class give "px-3 py-2 bg-orange-500" |
| ClassNames.ClassNamesFields | src/components/Navbar/Navbar.jsx:8-10 | for any arguments, splitting the result on spaces gives the space-separated fields of each truthy argument in turn, and the single empty field when none is truthy |
| ClassNames.ClassNamesNoEmptyField | src/components/Navbar/Navbar.jsx:8-10 | for any arguments, the result has no empty space-separated field (no leading, trailing or doubled space) exactly when some argument is truthy and no truthy argument has an empty field of its own |
| ClassNames.ClassNamesEmpty | src/components/shop/Section1.jsx:20-22 | the result is the empty string exactly when every argument is falsy |
| Text.IncludesIffOccurs | src/components/shop/Section1.jsx:128 | the `includes` scan succeeds exactly when the needle occurs at some offset |
| Text.JoinSplit | src/app/middleware.js:14 | splitting on a separator loses nothing: joining the fields back gives the input |
| Text.SplitJoin | src/app/middleware.js:14 | joining separator-free fields and splitting again gives the same fields |
| Text.SingleFieldIff | src/app/middleware.js:14 | a split yields one field exactly when the separator is absent |
| Catalog.EffectivePrice | src/store/useCartStore.js:35 | `salePrice ?? price`: the sale price whenever it is present, including 0, else the regular price |
| CartStore.Find | src/store/useCartStore.js:12 | `find` gives nothing exactly when no line has the id; otherwise it gives the first line with that id, all earlier lines having other ids |
| CartStore.Bump | src/store/useCartStore.js:15-17 | every line with the id gets one more unit and keeps its stored fields; every other line is unchanged; the length is kept |
| CartStore.AddToCart | src/store/useCartStore.js:10-22 | after adding, the cart always holds a line with the product's id |
| CartStore.AddToCartExisting | src/store/useCartStore.js:12-18 | on a valid cart, adding a present id raises that one line's quantity by exactly 1 and keeps its stored fields; the other lines and the order are unchanged |
| CartStore.AddToCartNew | src/store/useCartStore.js:19-21 | adding an absent id appends one line at the end with the product's fields and quantity 1; the old lines are a prefix |
| CartStore.AddToCartPreservesValid | src/store/useCartStore.js:10-22 | adding keeps "at most one line per id" and "every quantity at least 1" |
| CartStore.RemoveFromCart | src/store/useCartStore.js:24-26 | after removal no line has the id, and the cart does not grow |
| CartStore.RemoveFromCartPresent | src/store/useCartStore.js:24-26 | on a valid cart, removing a present id deletes exactly its line and keeps the rest in order |
| CartStore.RemoveFromCartAbsent | src/store/useCartStore.js:24-26 | removing an absent id leaves the cart unchanged |
| CartStore.RemoveFromCartPreservesValid | src/store/useCartStore.js:24-26 | removal keeps both cart invariants |
| CartStore.ClearCart | src/store/useCartStore.js:28 | clearing gives an empty, valid cart whatever it held |
| CartStore.ClearCartTotals | src/store/useCartStore.js:28-37 | after clearing, both the item count and the price total are 0 |
| CartStore.TotalItems | src/store/useCartStore.js:30-31 | on a cart whose quantities are all at least 1 (and ids unique), the item count is at least the number of lines |
| CartStore.TotalPrice | src/store/useCartStore.js:33-37 | when no line costs a negative amount, the total is not negative |
| CartStore.TotalItemsConcat | src/store/useCartStore.js:30-31 | the item count of two carts joined is the sum of their counts |
| CartStore.TotalPriceConcat | src/store/useCartStore.js:33-37 | the price total of two carts joined is the sum of their totals |
| CartStore.AddToCartTotalItems | src/store/useCartStore.js:10-31 | on a valid cart every `addToCart` raises the item count by exactly 1 |
| CartStore.AddToCartTotalPrice | src/store/useCartStore.js:10-37 | on a valid cart every `addToCart` raises the total by one unit of the stored line's effective price, which is the new product's own price only when its id was absent |
| CartStore.TotalItemsBounds | src/store/useCartStore.js:30-31 | with all quantities at least 1, the item count is at least the number of lines, and it is 0 only for the empty cart |
| CartStore.TotalPriceExample | src/store/useCartStore.js:33-37 | a line on sale at 8 (regular 10) bought twice plus a line at 5 bought once totals 21 |
| ShopFilter.AnySelectedIff | src/components/shop/Section1.jsx:124 | the scan for a selected size option succeeds exactly when some size option of the product is in the selected set |
| ShopFilter.SizeStageIff | src/components/shop/Section1.jsx:121-125 | the size stage passes a product exactly when no size is selected or one of its size options is |
| ShopFilter.QueryStageIff | src/components/shop/Section1.jsx:128 | the query stage passes exactly when the lower-cased query occurs in the lower-cased title; lower-casing the query changes nothing; the empty query passes every product |
| ShopFilter.Narrow | src/components/shop/Section1.jsx:118-128 | the six chained filters equal one filter by the conjunction of all six facet predicates |
| ShopFilter.Filtered | src/components/shop/Section1.jsx:117-137 | a result exists exactly for the modelled sorts, and it is a reordering of the products that pass all six facet stages, with their multiplicities; under "Popular" it is exactly those products in catalogue order |
| ShopFilter.FilteredSound | src/components/shop/Section1.jsx:117-137 | every product on the page comes from the catalogue and satisfies every active facet |
| ShopFilter.FilteredComplete | src/components/shop/Section1.jsx:117-137 | every catalogue product that satisfies every active facet appears on the page |
| ShopFilter.UnsetFacetsKeepAll | src/components/shop/Section1.jsx:119-136 | with category and gender unset, no sizes or colours, "new only" off, an empty query and "Popular", the result is the catalogue in its own order |
| ShopFilter.InitialPageShowsCatalogue | src/components/shop/Section1.jsx:76-85 | with the initial selection and the initial empty query, the page shows the whole catalogue in its given order |
| ShopFilter.TonesIgnored | src/components/shop/Section1.jsx:117-128 | changing the selected tones never changes the result |
| ShopFilter.SortByPrice | src/components/shop/Section1.jsx:129-133 | the price sort returns a permutation of its input ordered by key |
| ShopFilter.PriceSortsOrder | src/components/shop/Section1.jsx:129-133 | "Price: Low to High" orders the result by effective price ascending, and "Price: High to Low" descending |
| ShopFilter.SortByPriceStable | src/components/shop/Section1.jsx:129-133 | the price sorts are stable: products with the same price keep their relative order |
| ShopFilter.Order | src/components/shop/Section1.jsx:129-137 | every modelled sort permutes its input; only "Newest" and "Rating" are outside the model; every sort other than the two price sorts compares all products equal and keeps the input exactly |
| ShopFilter.ToggleSet | src/components/shop/Section1.jsx:108-114 | `toggleSet` flips the membership of one value in one set facet; other values, other facets and all other fields are unchanged |
| ShopFilter.ToggleSetTwice | src/components/shop/Section1.jsx:108-114 | toggling the same value twice restores the selection |
| ShopFilter.ClickCategory | src/components/shop/Section1.jsx:261-264 | clicking the selected category clears it to null and clicking any other selects it; nothing else changes |
| ShopFilter.ClickGender | src/components/shop/Section1.jsx:289-292 | the gender buttons behave the same way on `gender` |
| ShopFilter.ToggleOnlyNew | src/components/shop/Section1.jsx:382-386 | the checkbox flips `onlyNew` and nothing else |
| ShopFilter.ColMin | src/components/shop/Section1.jsx:141-145 | grid 3 gives 360, grid 4 gives 300, any other value gives 240 |
| Hex.Encode | src/app/api/webhook/route.js:34-37 | the digest text has two characters per byte, all hex digits and none upper-case |
| Hex.EncodePairs | src/app/api/webhook/route.js:34-37 | byte `i` is written as the digit pair at offset `2i`, high nibble first |
| Hex.Decode | src/app/api/webhook/route.js:41-42 | at most one byte per two characters, and the result is non-empty exactly when the text starts with two hex digits |
| Hex.DecodePairs | src/app/api/webhook/route.js:41-42 | byte `i` is read from the digit pair at offset `2i`, and the two characters after the last pair read are not both hex digits, so reading stops at the first bad pair |
| Hex.DecodeEncode | src/app/api/webhook/route.js:34-43 | decoding the hex digest gives back the digest bytes |
| Hex.DecodeIgnoresTrailingText | src/app/api/webhook/route.js:42 | text after a valid hex encoding that does not start with a hex digit is dropped, not rejected |
| Webhook.TimingSafeEqual | src/app/api/webhook/route.js:40-46 | the compare throws exactly on a length mismatch, and otherwise returns byte equality |
| Webhook.Stale | src/app/api/webhook/route.js:29-30 | a finite timestamp is stale exactly when it lies outside the closed interval from now - 300 to now + 300; NaN is never stale; +Infinity and -Infinity are always stale |
| Webhook.VerifySignature | src/app/api/webhook/route.js:27-47 | an accepted request has a fresh timestamp and a signature that decodes to the HMAC of the timestamp, a dot and the raw body |
| Webhook.VerifySignatureIff | src/app/api/webhook/route.js:27-47 | the verifier accepts exactly when the timestamp is not stale and the signature decodes to the HMAC of `timestamp + "." + rawBody`; it returns a boolean and never throws |
| Webhook.WindowBoundary | src/app/api/webhook/route.js:29-30 | the window rejects exactly when the difference exceeds 300 seconds in either direction, so exactly 300 passes and 301 fails, and future and past are treated alike |
| Webhook.NaNTimestampSkipsWindow | src/app/api/webhook/route.js:30 | a timestamp that `Number` maps to NaN passes the window check; only the signature compare can reject it |
| Webhook.ReplayRejected | src/app/api/webhook/route.js:29-30 | a timestamp more than 300 seconds old is rejected whatever the signature |
| Webhook.SignedPayloadInjective | src/app/api/webhook/route.js:32-37 | for timestamps without a '.', the signed string determines both the timestamp and the unparsed body |
| Webhook.MakeRecord | src/app/api/webhook/route.js:95-101 | building the record throws exactly on a null payload; otherwise the event kind is always truthy and the record carries the parsed payload and receipt time |
| Webhook.RecordFallbacks | src/app/api/webhook/route.js:96-98 | `event` falls back to "form.submitted" when the payload's is falsy; `submission_id` falls back to the payload's `id`; `form_id` is copied as is |
| Webhook.Post | src/app/api/webhook/route.js:51-112 | every response is 200, 400, 401 or 500; a record is stored exactly on 200; an error body is present exactly on non-200 |
| Webhook.PostCheckOrder | src/app/api/webhook/route.js:57-90 | the first failing check decides: bad JSON gives 400 even with headers missing; then missing headers give 400; then a missing secret gives 500; then a stale timestamp or a signature mismatch gives 401 |
| Webhook.PostStoresOnlyVerified | src/app/api/webhook/route.js:85-104 | a 200 response implies the body parsed, the headers and the secret were present, the timestamp was fresh, the signature matched, and the stored record is the one built from the payload |
| Webhook.PostAfterVerification | src/app/api/webhook/route.js:92-111 | after verification, a null payload or a failed write gives 500 with nothing stored; otherwise the result is 200 `{ok:true}` with the record stored |
| Webhook.SignedSubmissionAccepted | src/app/api/webhook/route.js:85-104 | a fresh, correctly signed submission `{form_id:"F1", submission_id:"S1", data}` is answered 200 and stored with the default event kind, "F1" and "S1" |
| Webhook.ReplayedRequestUnauthorized | src/app/api/webhook/route.js:85-90 | the same request handled 400 seconds after its timestamp is answered 401 and nothing is stored |
| AuthStore.Login | src/store/useAuthStore.js:7-14 | login succeeds exactly when email and password are both non-empty; success sets user to `{email}` and isLoggedIn to true; failure leaves the state unchanged |
| AuthStore.Logout | src/store/useAuthStore.js:16 | logout returns the initial state (no user, logged out) from any state |
| AuthStore.TransitionsKeepConsistent | src/store/useAuthStore.js:4-16 | login and logout keep "logged in exactly when a user is set" |
| AuthStore.PasswordNotStored | src/store/useAuthStore.js:10 | any two non-empty passwords give the same result and state, so nothing of the password is kept |
| AuthStore.SecondLoginOverwrites | src/store/useAuthStore.js:10 | a second successful login replaces the user with the new email |
| AuthStore.LogoutAfterLogin | src/store/useAuthStore.js:16 | logout after any login attempt returns to the initial state |
| Middleware.Token | src/app/middleware.js:14 | no header gives no token; a header gives no token exactly when it contains no space |
| Middleware.TokenIsSecondField | src/app/middleware.js:14 | the token is the text between the first and the second space of the header |
| Middleware.Middleware | src/app/middleware.js:4-24 | the only outcomes are pass, 401 and 403; a public path always passes; a request passes only on a public path or with a token that verification accepts |
| Middleware.MiddlewareDecision | src/app/middleware.js:9-24 | public paths pass without reading the header; otherwise a missing or empty token gives 401, and a present token passes when verification accepts it and gives 403 when it rejects it |
| Middleware.PrefixNotSegmentAware | src/app/middleware.js:9-11 | "/api/authx" passes like "/api/auth/login", whatever the header |
| Middleware.MalformedHeadersUnauthorized | src/app/middleware.js:14-17 | no header, "Bearer" alone, and "Bearer" followed by two spaces all give 401 |
| Navbar.IsActive | src/components/Navbar/Navbar.jsx:31-34 | an active link's href is always a prefix of the path, and every link is active on its own href |
| Navbar.HomeActiveIff | src/components/Navbar/Navbar.jsx:32 | the home link is active exactly on "/" |
| Navbar.OtherActiveIff | src/components/Navbar/Navbar.jsx:33 | any other link is active exactly when its href is a prefix of the path |
| Navbar.AtMostOneActive | src/components/Navbar/Navbar.jsx:16-34 | no two links of the fixed list are active on the same path |
| Navbar.ActiveLinks | src/components/Navbar/Navbar.jsx:16-34 | the active links of a path are at most one: the matching link when there is one, otherwise none |
| Navbar.PrefixMatchExample | src/components/Navbar/Navbar.jsx:16-34 | of the five links, "/menu" highlights exactly "Men" and "/" highlights exactly "Home" |

## Left out

- JSX rendering, framer-motion animation and the markup of every component: no decision logic.
- `updateQuantity`: the cart page calls it, but the store never defines it, so there is no behaviour to model.
- No secondary submission record: the webhook handler writes one event record and nothing else, so none is modelled.
- The record's `submission_id` falls back once, to `payload.id`, with no generated placeholder; that is what `MakeRecord` models.
- The cart page keys lines by `pid` while the store keys them by `id`: the store is modelled as written.
- localStorage persistence of the cart and of the grid setting, the `fetch` on the home page, and the `setTimeout` loading flag: these are I/O and timers.
- HMAC-SHA256 and `jwt.verify` are foreign library calls and appear only as parameters; bcrypt is used only by the login and register routes, which are left out below. The timing behaviour of `timingSafeEqual` is also left out; only its result is modelled.
- Webhook.VerifySignatureIff: says nothing about a body altered after signing being rejected, because that depends on collision resistance of the HMAC parameter.
- Mongoose models, schema validation and the DB write: the write is one success predicate, and a `required` field the schema refuses shows up as a failed write. The login, register and profile routes are DB/bcrypt/JWT orchestration, and the products route is static data.
- Reading the request body (`req.text()`) is assumed to succeed.
- Any value of `Number(...)`, including fractions and exponent notation, comes from the conversion parameter; the model does not parse numbers itself.
- Floating-point prices and ratings, including `starRow`: prices are integer cents, and the sums are exact integer arithmetic rather than IEEE doubles.
- The "Newest" comparator: it is not a consistent ordering, so the engine's sort algorithm decides the result. `Order` returns `None` for it.
- The "Rating" sort: it compares float ratings. `Order` returns `None` for it.
- ShopFilter.QueryStageIff: `toLowerCase` is modelled on the ASCII letters A-Z only, not on full Unicode case mapping.
- AuthStore.Login: email and password are modelled as strings; `null` or `undefined` arguments are not modelled.
- ClassNames.ClassNames: arguments are class strings or falsy non-strings. Truthy non-string arguments such as `true` or numbers are not modelled, and the source never passes them.
- JsValues.Get: of a non-object value, only own properties named like JSON fields are read. Built-in properties such as `length` are not modelled, and the source never reads them.
