# Product catalogue core, modelled in Dafny

The project models the logic of a small Laravel and Vue product catalogue.
It covers four parts.

- **Product image columns** (`backend/app/Models/Product.php`). The `image` mutator writes three columns: the image bytes, the MIME type and the size. It either clears all three together, or shrinks the upload to at most 800 pixels wide, re-encodes it as JPEG and fills all three. The `image` accessor returns the stored bytes as a `data:` URI (section 3 of RFC 2397) with a base64 payload (section 4 of RFC 4648).
  - Modules `ProductImage` and `Base64`.
  - The image library's decoder and JPEG encoder are parameters (`read`, `toJpeg`) that may fail.
  - The width/height arithmetic of `resize(800, null)` is modelled with the constraint-callback semantics of Intervention Image version 2: `aspectRatio()` keeps the proportions and `upsize()` forbids enlarging. Its floating-point ratio becomes an exact rational with half-up rounding. See `Resized` under "## Left out" for the other reading.
  - The base64 codec is written out. Encoding and the strict decoder are proved mutual inverses: `Decode(t) == Some(s)` holds if and only if `t == Encode(s)`.
- **Client products store** (`frontend/src/store/modules/products.js`). Module `ProductsStore`.
  - The store is a class with fields `products`, `categories`, `loading` and `error`.
  - The mutations are methods that update these fields in place.
  - The actions follow a loading/error protocol. They take the API outcome as a parameter: response data, or the rejected error's message.
  - The two form-building loops are methods proved against the function `NonNullFields`.
- **Client auth store** (`frontend/src/store/modules/auth.js`). Module `AuthStore`: a class holding `token` and `user`, the `isAuthenticated` getter (the token is truthy), and the mutations and actions. As written, the `actions` object closes after `login`, so only `register` and `login` are registered actions; `logout`, `updateProfile` and `deleteAccount` are modelled as the module evidently intends them (see "## Left out").
- **Auth controller** (`backend/app/Http/Controllers/AuthController.php`). Module `AuthController`: a class `Accounts` holding the user table and the set of valid tokens.
  - `register` validates name, email and password. It returns 400 with the failing attributes, or adds exactly one user with a hashed password and answers 201 with the body exactly as written: a two-element JSON array (see "## Findings"). Emails stay unique.
  - `login` issues a token when the credentials match, and returns 401 otherwise.
  - `logout` invalidates the current token.
  - Hashing, hash checking, Laravel's `email` rule and JWT signing are parameters.

JavaScript values, with their truthiness and nullishness rules, are in module `Js`.
`Option` and `Result` are in `Wrappers`.

The project follows the code where other descriptions of the system differ. In particular, the width is the only bounded dimension: `resize(800, null)` leaves the height unconstrained, so a 500×3000 image keeps its size (`ResizedExamples`). A description that says the longer side ends up at most 800 pixels does not match the code.

Registering never authenticates the client. The backend's 201 body carries no token, but the client's `register` action reads `token` and `user` from it. So after registering, `token` is undefined and `isAuthenticated` is false (`AuthController.CreatedBodiesHaveNoToken`, `AuthStore.AuthState.Register`).

## Model

| member | source | states |
|---|---|---|
| Base64.Encode | backend/app/Models/Product.php:57 | base64 text of n bytes is 4·⌈n/3⌉ characters long |
| Base64.DecodeEncode | backend/app/Models/Product.php:57 | decoding the base64 text of any byte string gives back exactly those bytes |
| Base64.EncodeDecode | backend/app/Models/Product.php:57 | any text the strict decoder accepts is the encoding of what it decodes to |
| Base64.DecodeIffEncode | backend/app/Models/Product.php:57 | text decodes to bytes s if and only if it is the base64 encoding of s |
| Base64.DigitValueOfDigit | backend/app/Models/Product.php:57 | every 6-bit value maps to an alphabet character that maps back to it |
| ProductImage.RoundDiv | backend/app/Models/Product.php:41-42 | the quotient is the nearest integer to a/b, halves rounded up, as PHP round() on the ratio |
| ProductImage.Resized | backend/app/Models/Product.php:40-44 | the output width is at most 800, and neither side exceeds the input's |
| ProductImage.ResizedKeepsNarrowImage | backend/app/Models/Product.php:43 | no upscaling: an image at most 800 wide keeps its dimensions |
| ProductImage.ResizedShrinksWideImage | backend/app/Models/Product.php:41-42 | a wider image becomes 800 wide, and its height is the rounded height that keeps the aspect ratio (at least 1) |
| ProductImage.ResizedIdempotent | backend/app/Models/Product.php:40-44 | resizing an already resized image changes nothing |
| ProductImage.ResizedExamples | backend/app/Models/Product.php:41-43 | 2000×1000 becomes 800×400; 400×300 and 500×3000 are unchanged, because only the width is bounded |
| ProductImage.FalsyString | backend/app/Models/Product.php:56 | a falsy PHP string has at most one byte; a one-byte string is falsy exactly when it is "0" |
| ProductImage.TruthyLookalikes | backend/app/Models/Product.php:56 | "" and "0" are falsy, while "00", "0.0", " " and "false" are truthy |
| ProductImage.Falsy | backend/app/Models/Product.php:32 | an uploaded file is never falsy; a falsy input is null or a string of at most one byte |
| ProductImage.EncodeImage | backend/app/Models/Product.php:30-50 | a falsy input clears all three columns; otherwise success means MIME "image/jpeg", a non-empty JPEG of the resized image and size equal to its byte length; decode and encode failures occur exactly when the library fails |
| ProductImage.Product.SetImageAttribute | backend/app/Models/Product.php:30-51 | the columns become what EncodeImage computes; on failure all three are left as they were; all-or-nothing is preserved |
| ProductImage.ImageDataUri | backend/app/Models/Product.php:56-57 | null exactly when the stored value is null, "" or "0" |
| ProductImage.Product.ImageAttribute | backend/app/Models/Product.php:54-58 | the accessor on this row is null exactly when the stored image is null, "" or "0" |
| ProductImage.DataUriPrefix | backend/app/Models/Product.php:57 | the URI begins with "data:", the MIME type and ";base64," |
| ProductImage.DataUriPayload | backend/app/Models/Product.php:57 | the text after the first comma decodes to exactly the stored bytes and is 4·⌈n/3⌉ characters long |
| ProductImage.JpegDataUri | backend/app/Models/Product.php:49-57 | the URI of any stored JPEG begins with "data:image/jpeg;base64," and its payload decodes to exactly the JPEG bytes |
| ProductImage.StoredImageReadsBack | backend/app/Models/Product.php:48-57 | after a successful store of a real upload, the accessor's URI starts with "data:image/jpeg;base64," and its payload decodes to the stored JPEG |
| ProductImage.NoImageReadsNull | backend/app/Models/Product.php:32-56 | a row whose three columns were cleared reads back as null |
| ProductsStore.ErrorText | frontend/src/store/modules/products.js:57 | the recorded error is the error's message when non-empty, else the fallback, so it is never empty |
| ProductsStore.FindIndex | frontend/src/store/modules/products.js:31 | -1 exactly when no product has the id; otherwise the first position with that id |
| ProductsStore.Replaced | frontend/src/store/modules/products.js:30-35 | the length is kept; only the first product with the id is replaced; an absent id leaves the list unchanged |
| ProductsStore.WithoutId | frontend/src/store/modules/products.js:36-38 | no product with the id remains, and every other product is kept |
| ProductsStore.WithoutIdAppend | frontend/src/store/modules/products.js:37 | deletion distributes over concatenation, so the survivors keep their relative order |
| ProductsStore.WithoutAbsentId | frontend/src/store/modules/products.js:37 | deleting an id no product has leaves the list unchanged |
| ProductsStore.DeleteUndoesAdd | frontend/src/store/modules/products.js:27-38 | deleting a freshly prepended product whose id was new restores the list |
| ProductsStore.UpdateIdempotent | frontend/src/store/modules/products.js:30-35 | applying the same update twice equals applying it once |
| ProductsStore.NonNullFields | frontend/src/store/modules/products.js:84-92 | a field is kept exactly when its value is neither null nor undefined |
| ProductsStore.NonNullFieldsAppend | frontend/src/store/modules/products.js:84-92 | selection works key by key, in key order |
| ProductsStore.NonNullFieldsDistinct | frontend/src/store/modules/products.js:84-92 | each key of the product data is appended at most once |
| ProductsStore.BuildCreateForm | frontend/src/store/modules/products.js:81-92 | the loop appends exactly the non-null fields in order; the truthy-image branch reduces to this rule |
| ProductsStore.BuildUpdateForm | frontend/src/store/modules/products.js:115-126 | the non-null fields in order, then exactly one trailing "_method" = "PUT" |
| ProductsStore.ProductsState.constructor | frontend/src/store/modules/products.js:6-11 | empty lists, not loading, no error |
| ProductsStore.ProductsState.SetProducts | frontend/src/store/modules/products.js:21-23 | only the product list changes |
| ProductsStore.ProductsState.SetCategories | frontend/src/store/modules/products.js:24-26 | only the categories change |
| ProductsStore.ProductsState.AddProduct | frontend/src/store/modules/products.js:27-29 | the new product is first and the old list follows it; nothing else changes |
| ProductsStore.ProductsState.UpdateProduct | frontend/src/store/modules/products.js:30-35 | the list becomes Replaced of the old list; nothing else changes |
| ProductsStore.ProductsState.DeleteProduct | frontend/src/store/modules/products.js:36-38 | the list becomes WithoutId of the old list; nothing else changes |
| ProductsStore.ProductsState.SetLoading | frontend/src/store/modules/products.js:39-41 | only the loading flag changes |
| ProductsStore.ProductsState.SetError | frontend/src/store/modules/products.js:42-44 | only the error changes |
| ProductsStore.ProductsState.FetchProducts | frontend/src/store/modules/products.js:48-62 | ends not loading; success replaces the list and leaves no error; failure keeps the list and records the message, or the fallback text |
| ProductsStore.ProductsState.FetchCategories | frontend/src/store/modules/products.js:64-73 | categories change only on success; loading and error are untouched |
| ProductsStore.ProductsState.CreateProduct | frontend/src/store/modules/products.js:75-108 | posts the non-null fields; ends not loading; success prepends the created product with no error; failure keeps the list and records a message |
| ProductsStore.ProductsState.UpdateProductAction | frontend/src/store/modules/products.js:110-142 | posts the non-null fields plus "_method"; ends not loading; success replaces the product; failure keeps the list and records a message |
| ProductsStore.ProductsState.DeleteProductAction | frontend/src/store/modules/products.js:144-152 | the product leaves the list only when the API call succeeded |
| ProductsStore.ProductsState.SearchProductByGtin | frontend/src/store/modules/products.js:175-187 | ends not loading and changes nothing else |
| AuthStore.AuthState.constructor | frontend/src/store/modules/auth.js:7-10 | token and user start null |
| AuthStore.AuthState.Authenticated | frontend/src/store/modules/auth.js:13 | a null, undefined or empty token is unauthenticated; a string token authenticates exactly when non-empty; an object token always does |
| AuthStore.AuthState.SetToken | frontend/src/store/modules/auth.js:19-21 | only the token changes |
| AuthStore.AuthState.SetUser | frontend/src/store/modules/auth.js:22-24 | only the user changes |
| AuthStore.AuthState.ClearAuth | frontend/src/store/modules/auth.js:25-28 | token and user become null, and the state is not authenticated |
| AuthStore.AuthState.Register | frontend/src/store/modules/auth.js:32-42 | success sets token and user from the response, so a body without a token leaves the client unauthenticated; failure changes nothing |
| AuthStore.AuthState.Login | frontend/src/store/modules/auth.js:44-53 | success sets token and user from the response, and authentication follows the token's truthiness; failure changes nothing |
| AuthStore.AuthState.Logout | frontend/src/store/modules/auth.js:56-65 | auth is cleared whether or not the API call failed |
| AuthStore.AuthState.UpdateProfile | frontend/src/store/modules/auth.js:67-71 | the user becomes the response on success; the token never changes |
| AuthStore.AuthState.DeleteAccount | frontend/src/store/modules/auth.js:78-82 | auth is cleared only when the API call succeeded |
| AuthController.FailedAttributes | backend/app/Http/Controllers/AuthController.php:18-22 | each of name, email and password is reported exactly when its rule fails |
| AuthController.ValidatedRequest | backend/app/Http/Controllers/AuthController.php:18-26 | a request that passes holds a name of 1 to 255 characters, an unused email-shaped email of at most 255 characters, and a password of at least 6 |
| AuthController.AddingFreshEmailKeepsUnique | backend/app/Http/Controllers/AuthController.php:20-33 | adding a user whose email is unused keeps emails unique |
| AuthController.CreatedBodyAsWrittenHasNoMessage | backend/app/Http/Controllers/AuthController.php:35 | the body as written has no message property; the text sits at index 1 |
| AuthController.CreatedBodyHasMessage | backend/app/Http/Controllers/AuthController.php:35 | the corrected body carries the text under message |
| AuthController.CreatedBodiesHaveNoToken | backend/app/Http/Controllers/AuthController.php:35 | neither form of the registration body carries a token |
| AuthController.FindUser | backend/app/Http/Controllers/AuthController.php:42 | the lookup finds a user exactly when the email is taken, and the user it finds has that email |
| AuthController.CredentialsMatch | backend/app/Http/Controllers/AuthController.php:40-42 | a match needs a string email some user holds and a password that passes the hash check against that user's hash; a missing or null password never matches |
| AuthController.FindAppendedUser | backend/app/Http/Controllers/AuthController.php:29-42 | a user added under an unused email is the one a lookup of that email finds |
| AuthController.RegisteredUserCanLogIn | backend/app/Http/Controllers/AuthController.php:29-46 | after a successful registration the same email and password log in, given a hash checker that accepts the hasher's output |
| AuthController.Accounts.Register | backend/app/Http/Controllers/AuthController.php:16-36 | 400 with the failing attributes and no change, or 201 with the list body as written and exactly one user added whose password is the hash; tokens are untouched; emails stay unique |
| AuthController.Accounts.Login | backend/app/Http/Controllers/AuthController.php:39-47 | a match gives 200 with only a token, which becomes valid; otherwise 401 with the message and no token |
| AuthController.Accounts.Logout | backend/app/Http/Controllers/AuthController.php:50-55 | the current token is no longer valid, and no other token or user changes |

## Left out

- Intervention Image's decoding, resampling and quality-75 JPEG encoding. These are foreign library code with lossy output, so they become the parameters `read` and `toJpeg`. A JPEG is any byte string that starts with the FF D8 marker.
- The library computes the aspect ratio in floating point. The model uses exact rationals with half-up rounding, which can differ from the float result in the last unit on extreme sizes.
- Eloquent behaviour is not modelled: the `category()` and `user()` relations, the `$fillable` whitelist and the `tbprodutos` table name.
- The products migration is not part of this model. It declares the image columns nullable and the prices DECIMAL(10,2); prices are carried as opaque JavaScript values. It creates `products`, while the model class uses `tbprodutos`.
- The network and UI are left out: axios calls, `async`/`await` timing, `router.push` navigation, `console.error` logging, and the browser download in `exportProductsXlsx`. Each API call's outcome is a parameter.
- The HTTP client's request interceptor (it attaches the bearer token), routing, CORS, mock data and the service provider are configuration, so they are left out.
- AuthState.Logout, AuthState.UpdateProfile, AuthState.DeleteAccount: these model the evidently intended auth module. As written, `actions` closes after `login` (auth.js:53-54), so `logout`, `updateProfile`, `updatePassword` and `deleteAccount` are plain keys of the exported object. Vuex registers only `register` and `login`, so dispatching any of the other four is an unknown action and changes nothing.
- AuthState.Login: the HTTP client's response interceptor dispatches `auth/logout` on any 401 response (api.js:22-30). As written, `logout` is not a registered action, so that dispatch changes nothing and a refused login leaves the state as the contract says. Under the intended module, a 401 would also clear auth; the contracts describe the store module on its own.
- AuthState.constructor: the persisted-state plugin restores `token` and `user` from local storage at start-up. The model starts from the state the module declares.
- Password hashing, hash checking, JWT signing and Laravel's `email` format rule are library code. They become parameters.
- The unique-email check compares strings exactly; the database collation's case handling is not modelled.
- Laravel's request middleware (trimming strings and turning "" into null) is not modelled. `required` is modelled as rejecting null, missing and blank strings.
- Getters that only return a state field (`allProducts`, `isLoading`, `token`, `user`, …) are plain field reads, so they have no members.
- JavaScript numbers are modelled as reals. Object key order is the order of the form list the actions receive.
- BuildCreateForm, BuildUpdateForm: the result is the list of `append` calls. `FormData.append` turns every non-file value into a string (`false` into "false", an object into "[object Object]"), and that conversion of what the server receives is not modelled.
- `updatePassword` in the auth store commits nothing, so it has no state effect to model.
- `loading` is true while an action is in flight. Only the state after the action is stated, so that intermediate value is not.
- Accounts.Register: the 400 body is the validator's message bag, serialised to a JSON string inside the JSON response. The model returns the set of failing attribute names, not the messages.
- Accounts.Logout: requires the current token to be valid. The route runs behind the `auth:api` middleware, which rejects any other request before the controller runs.
- Accounts.Login: a user's email is matched exactly and the first matching row is checked. What JWTAuth's user provider does beyond that is not modelled.
- CredentialsMatch: a non-string email (a JSON number, say) is treated as a mismatch. The database's own comparison of such a value with the email column is not modelled.
- CredentialsMatch: a request with no password key is treated like a null password, as a mismatch. Depending on the framework version the user provider may instead fail on the missing key.
- Resized: assumes the constraint-callback `resize` of Intervention Image version 2. The calls `Image::read`, `toJpeg` and `size()` belong to the version 3 API, where `resize` takes only a width and a height and PHP drops the extra closure. Under that reading the image would become 800 wide at its original height, enlarged when narrower. The model does not capture that reading.
- ProductsState.SetProducts, AddProduct, UpdateProduct: the store keeps the caller's array by reference, and `unshift` and `splice` then change that same array in place, so the `response.data` an earlier `fetchProducts` returned changes along with the store. The model's lists are values, so this aliasing is not captured.
- Product ids are integers in the model. JavaScript's strict equality also tells the string "3" from the number 3, so `DELETE_PRODUCT` with "3" removes nothing from a list holding id 3; the model cannot express that mismatch.

## Findings

| source | as written | input that shows it | evidently intended | confidence | as-written member | corrected member |
|---|---|---|---|---|---|---|
| backend/app/Http/Controllers/AuthController.php:35 | `['message', 'Usuário criado com sucesso!']` is a PHP list, so the 201 body is the JSON array `["message", "Usuário criado com sucesso!"]` | any valid registration, e.g. name "Ana", email "ana@x.io", password "secret1": the body has no `message` property | `['message' => 'Usuário criado com sucesso!']`, an object with a `message` property | not executed | AuthController.CreatedBodyAsWrittenHasNoMessage | AuthController.CreatedBodyHasMessage |

`Accounts.Register` sends the body as written (`CreatedBodyAsWritten`). The corrected body `CreatedBody` is defined beside it, with its `message` property proved.
