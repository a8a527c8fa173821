# Auto-parts shop and minimal API: a Dafny model

This project models three small parts of a C# learning repository and proves
what each one promises.

- **The shopping cart** (`ShoppingCartService`) is an in-memory, append-only
  list of auto parts. `AddToCart` appends a part and then raises the `OnChange`
  event. `GetCartItems` returns the entries. `GetTotalPrice` sums their prices.
  It is modelled as a Dafny class with a `seq` field. A `handlers` count stands
  for the subscribers of `OnChange`. An `invocations` log records what the
  handlers saw each time the event was raised.
- **The catalog lookup** (`AutoPartService.GetAutoPartByIdAsync`) loads the
  parts list and returns the first part with the requested id, or `null`. The
  loaded list, or the exception that loading raised, is a parameter. The
  lookup is a function of it that returns `Option<AutoPart>`.
- **Four handlers of the minimal web API** (`Program.cs`): days between two
  dates, the phone-number check, the Spanish DNI (national identity number)
  check and the colour-code lookup. Each is a function from the query
  arguments to the reply. An exception that escapes a handler is a `Fault`
  value.

The shared value type `AutoPart`, with its nested `Specifications`, is a
datatype. The source puts no constraint on its fields, so the model puts none
on them either. The `decimal` price is a `real`.

Files: `wrappers.dfy` (Option and Result), `auto_part.dfy` (the value types),
`auto_part_service.dfy` (the catalog lookup), `shopping_cart_service.dfy` (the
cart) and `minimal_api.dfy` (the four handlers).

Where the code behaves differently from a plain reading of the handlers, the
model follows the code:

- The phone pattern `^\+[1-9]{1}[0-9]{3,14}$` accepts 5 to 16 characters in
  all. Its `$` also matches just before a final line feed.
- `int.Parse` accepts white space and a sign around the digits. C#'s `%` keeps
  the sign of the dividend. So a negative DNI number that is a multiple of 23
  gives index 0, which is a normal lookup. Only the other negative numbers
  index the letter table out of range and throw.

## Model

| member | source | states |
|---|---|---|
| `AutoPartService.FirstById` | challenges/eshop/EShop/Components/AutoPartService.cs:21 | A found part is in the list and has the requested id. The result is `None` exactly when no part has that id. If several parts have the id, the earliest of them is the one returned. |
| `AutoPartService.GetAutoPartById` | challenges/eshop/EShop/Components/AutoPartService.cs:8-22 | A load failure comes back unchanged and is never turned into "not found". After a successful load, a found part is in the list and has the id. The result is absent only when no part has the id, and present whenever one does. |
| `AutoPartService.FirstByIdPrefersEarliest` | challenges/eshop/EShop/Components/AutoPartService.cs:21 | If the part at index `i` has the id, the lookup succeeds and returns one of the first `i + 1` parts. |
| `AutoPartService.FindsUniquePart` | challenges/eshop/EShop/Components/AutoPartService.cs:18-22 | When the catalog's ids are unique, looking up a part's own id returns that part. |
| `ShoppingCart.TotalPriceConcat` | challenges/eshop/EShop/Components/ShoppingCartService.cs:20-23 | The total of two lists joined end to end is the sum of their totals. |
| `ShoppingCart.ShoppingCartService.constructor` | challenges/eshop/EShop/Components/ShoppingCartService.cs:5-7 | A new cart has no items and no subscribers, and has raised no event. |
| `ShoppingCart.ShoppingCartService.Subscribe` | challenges/eshop/EShop/Components/ShoppingCartService.cs:7 | Subscribing to `OnChange` adds one handler and changes nothing else. |
| `ShoppingCart.ShoppingCartService.AddToCart` | challenges/eshop/EShop/Components/ShoppingCartService.cs:9-13 | The new items are the old items with the part appended. No catalog check is made, so duplicates are accepted. The event is raised exactly once, after the append, when at least one handler is subscribed. The total grows by exactly the part's price. The invariant holds that every raise saw a longer, non-empty prefix of the items. |
| `ShoppingCart.ShoppingCartService.NotifyStateChanged` | challenges/eshop/EShop/Components/ShoppingCartService.cs:25 | `OnChange?.Invoke()` records one invocation that sees the current items when a handler is subscribed, and does nothing otherwise. |
| `ShoppingCart.ShoppingCartService.GetCartItems` | challenges/eshop/EShop/Components/ShoppingCartService.cs:15-18 | Returns the entries in insertion order and modifies nothing. |
| `ShoppingCart.ShoppingCartService.GetTotalPrice` | challenges/eshop/EShop/Components/ShoppingCartService.cs:20-23 | The total is the exact sum of the entries' prices, and exactly 0 for an empty cart. |
| `ShoppingCart.LookupThenAdd` | challenges/eshop/EShop/Components/ShoppingCartService.cs:9-23 | In a catalog with ids 1, 2 and 3, id 2 is found and id 99 is not. After parts 1 and 3 are added to a new cart, it holds `[p1, p3]` in call order and its total is the sum of their prices. |
| `ShoppingCart.AddSamePartTwice` | challenges/eshop/EShop/Components/ShoppingCartService.cs:9-12 | Adding one part twice gives two entries and twice its price. With one subscriber the event is raised twice. |
| `MinimalApi.DaysBetweenDates` | exercisefiles/dotnet/MinimalAPI/Program.cs:23-27 | The result is non-negative and is the number of complete days in the distance between the two instants: `r` days fit into it and `r + 1` do not. |
| `MinimalApi.DaysBetweenDatesSymmetric` | exercisefiles/dotnet/MinimalAPI/Program.cs:25 | Swapping the dates does not change the result. |
| `MinimalApi.DaysBetweenDatesExample` | exercisefiles/dotnet/MinimalAPI.Tests/IntegrationTests.cs:29-35 | From 2023-01-01 to 2023-01-10 is 9 days. |
| `MinimalApi.DaysBetweenDatesTruncates` | exercisefiles/dotnet/MinimalAPI/Program.cs:25 | A gap of two hours across midnight counts as 0 days. |
| `MinimalApi.DigitsThenEndShape` | exercisefiles/dotnet/MinimalAPI/Program.cs:33 | The pattern's tail `[0-9]{3,14}` plus its end anchor matches exactly when the rest of the input is a run of 3 to 14 digits. Under `$` a final line feed may follow that run. |
| `MinimalApi.ValidatePhoneNumber` | exercisefiles/dotnet/MinimalAPI/Program.cs:31-35 | The check is true exactly for '+', a digit 1-9 and then 3 to 14 digits 0-9. The same text followed by one line feed is also accepted. |
| `MinimalApi.ValidatePhoneNumberCorrected` | exercisefiles/dotnet/MinimalAPI/Program.cs:33 | With the anchor `\z`, the check is true exactly for the phone-number shape. |
| `MinimalApi.PhoneNumberExample` | exercisefiles/dotnet/MinimalAPI.Tests/IntegrationTests.cs:38-44 | "+1234567890" is accepted. |
| `MinimalApi.PhoneTrailingLineFeedAccepted` | exercisefiles/dotnet/MinimalAPI/Program.cs:33 | "+1234567890" followed by a line feed is accepted as written and rejected by the corrected check. |
| `MinimalApi.ParseInt32` | exercisefiles/dotnet/MinimalAPI/Program.cs:45 | A parsed value fits in 32 bits. A non-empty string of ASCII digits never gives a format error. |
| `MinimalApi.TrimStartWhiteRemovesWhite` | exercisefiles/dotnet/MinimalAPI/Program.cs:45 | The leading trim that `int.Parse` performs removes only white space. What remains is a suffix of the input. |
| `MinimalApi.TrimEndWhiteRemovesWhite` | exercisefiles/dotnet/MinimalAPI/Program.cs:45 | The trailing trim removes only white space. What remains is a prefix of the input. |
| `MinimalApi.ParseInt32OfDigits` | exercisefiles/dotnet/MinimalAPI/Program.cs:45 | One to eight ASCII digits always parse, to their decimal value. |
| `MinimalApi.DigitsValueOfDecimalDigits` | exercisefiles/dotnet/MinimalAPI/Program.cs:45 | Reading back a number written with enough digits gives the number. |
| `MinimalApi.DecimalDigitsOfDigitsValue` | exercisefiles/dotnet/MinimalAPI/Program.cs:45 | Writing back the value of a digit string at its own width gives the string. |
| `MinimalApi.ValidateSpanishDni` | exercisefiles/dotnet/MinimalAPI/Program.cs:39-51 | A length other than 9 is "invalid". When the first eight characters are digits, the reply is "valid" exactly when the ninth character equals `"TRWAGMYFPDXBNJZSQVHLCKE"[n % 23]`, compared case-sensitively. Only "valid" or "invalid" is returned, and an exception needs a 9-character input whose prefix is not eight digits. When `int.Parse` rejects the 9-character input's prefix, its format or overflow exception escapes. |
| `MinimalApi.ValidateSpanishDniOfNumber` | exercisefiles/dotnet/MinimalAPI/Program.cs:44-49 | Once the prefix of a 9-character input parses to `number`, a negative C# remainder `number % 23` throws an index exception. Otherwise the reply is "valid" when the ninth character is the letter at that remainder, and "invalid" when it is not. |
| `MinimalApi.DniCheckLetterUnique` | exercisefiles/dotnet/MinimalAPI/Program.cs:42-48 | For every eight-digit number, exactly one letter makes the DNI valid. |
| `MinimalApi.DniExample` | exercisefiles/dotnet/MinimalAPI.Tests/IntegrationTests.cs:47-53 | "12345678Z" is valid. |
| `MinimalApi.DniNonNumericPrefixFaults` | exercisefiles/dotnet/MinimalAPI/Program.cs:45 | A prefix that is not a number, as in "ABCDEFGHZ", throws a format exception. |
| `MinimalApi.DniNegativeRemainderFaults` | exercisefiles/dotnet/MinimalAPI/Program.cs:45-47 | "-0000001T" gives remainder -1 and indexes the letter table out of range. |
| `MinimalApi.DniSignedPrefixAccepted` | exercisefiles/dotnet/MinimalAPI/Program.cs:45-48 | "-0000023T" is reported valid. |
| `MinimalApi.DniSpacedPrefixAccepted` | exercisefiles/dotnet/MinimalAPI/Program.cs:45-48 | " 0000023T" is reported valid. |
| `MinimalApi.ValidateSpanishDniCorrected` | exercisefiles/dotnet/MinimalAPI/Program.cs:39-51 | The reply is "valid" exactly for eight digits followed by their check letter, and "invalid" otherwise. It never throws, and it agrees with the handler whenever the prefix is eight digits. |
| `MinimalApi.CanonicalDniShape` | exercisefiles/dotnet/MinimalAPI/Program.cs:42-48 | A string is a canonical DNI exactly when it has 9 characters, the first eight are digits and the ninth is their check letter. |
| `MinimalApi.DniCorrectedRejectsSignAndSpace` | exercisefiles/dotnet/MinimalAPI/Program.cs:45 | The corrected check rejects "-0000023T" and " 0000023T". |
| `MinimalApi.FirstNamed` | exercisefiles/dotnet/MinimalAPI/Program.cs:62 | A found colour is in the table and its name equals the query, ignoring case. The result is `None` exactly when no name matches. If several names match, the earliest is returned. |
| `MinimalApi.ReturnColorCode` | exercisefiles/dotnet/MinimalAPI/Program.cs:55-64 | An exception from reading or deserialising `colors.json` escapes, and the handler throws only then. A null table gives "Colors data not found". With a table the reply is the HEX code of the first colour whose name equals the query ignoring case, or "Color not found" exactly when no name matches. |
| `MinimalApi.ReturnColorCodeIgnoresCase` | exercisefiles/dotnet/MinimalAPI/Program.cs:62 | Two queries that differ only in letter case get the same reply. |
| `MinimalApi.ReturnColorCodeExample` | exercisefiles/dotnet/MinimalAPI.Tests/IntegrationTests.cs:56-62 | "red" finds the entry named "Red" and returns "#FF0000". |

## Findings

| source | as written | input that shows it | evidently intended | confidence | as-written member | corrected member |
|---|---|---|---|---|---|---|
| exercisefiles/dotnet/MinimalAPI/Program.cs:33 | `$` without the multiline option also matches just before a final line feed, so a number followed by `\n` passes | `"+1234567890\n"` (query `%2B1234567890%0A`) is reported `true` | Accept the whole input only if it has the phone-number shape (anchor `\z`) | high for the documented regex semantics; not executed | `MinimalApi.ValidatePhoneNumber`, shown by `MinimalApi.PhoneTrailingLineFeedAccepted` | `MinimalApi.ValidatePhoneNumberCorrected` |
| exercisefiles/dotnet/MinimalAPI/Program.cs:45-48 | `int.Parse` accepts a sign or white space in place of leading digits, and `%` of a negative multiple of 23 is 0 | `"-0000023T"` and `" 0000023T"` are reported "valid" | "valid" only for eight ASCII digits followed by their check letter | high for the documented `int.Parse` number style; not executed | `MinimalApi.ValidateSpanishDni`, shown by `MinimalApi.DniSignedPrefixAccepted` | `MinimalApi.ValidateSpanishDniCorrected` |

## Left out

- Reading `automobileParts.json` and `colors.json` and deserialising them are I/O and a library. The loaded list, or the failure, is a parameter. For the colours, the failure is an `IOException`, an `UnauthorizedAccessException` or a `JsonException`, which escapes the handler. The catalog's case-insensitive property names are therefore not modelled.
- `FirstById` does not model a `null` element inside the parts array, such as `[null, {...}]`. A `seq<AutoPart>` holds no nulls. In the source, a `null` element before the first match makes the lambda `p => p.Id == id` throw `NullReferenceException`.
- `ValidateSpanishDni` counts characters as Unicode scalar values. C#'s `Length`, `Substring(0, 8)` and `dni[^1]` count UTF-16 code units. The two counts differ for input outside the Basic Multilingual Plane. For example, "1234567😀" has length 9 in C#. Its prefix ends in a lone surrogate, so `int.Parse` throws and the source replies with status 500, while the model counts 8 characters and replies "invalid". In the other direction, "1234567😀Z" has length 10 in C# and is "invalid" there, while the model counts 9 characters and throws a format exception. The two agree on every input made only of characters from the Basic Multilingual Plane.
- `GetAutoPartsAsync` is not a separate member. Its outcome is the `loaded` parameter of `GetAutoPartById`: a list of parts, or one of three failures. The failures are an unreadable file, malformed JSON, and a `null` document, for which `FirstOrDefault` throws.
- The web host, endpoint registration, Swagger, HTTPS redirection and the `/` greeting are plumbing. Only the handler bodies are modelled.
- `/tellmeajoke` and `/moviesbytitle` call external web services.
- `/listfiles` reads the file system. `/calculatememoryconsumption` reads process state and uses floating-point rounding.
- `/randomeuropeancountry` exists to make a random choice.
- `/parseurl` is a thin wrapper around `Uri.TryCreate`, which is not part of this model.
- The regex engine is not modelled in general. The one pattern used is modelled as a matcher for its tokens.
- `DateTime` parsing, time zones and `DateTimeKind` are left out. Dates are tick counts in `DateTime`'s range, and subtracting them ignores their kind.
- `decimal` precision and overflow in `Sum` are left out. Prices are exact reals.
- `int.Parse` is modelled with the invariant culture's signs. Two behaviours of the .NET parser are not modelled: other cultures' sign symbols, and its acceptance of trailing NUL characters.
- `EqualsOrdinalIgnoreCase` folds case for ASCII letters only. `StringComparison.OrdinalIgnoreCase` also maps non-ASCII letters by Unicode simple case mapping, and that is not modelled.
- The `Color` class is not part of this model. Only the two fields the handler reads are kept: `Name` and `Code.HEX`. A `null` colour entry, or a `null` name, code or HEX inside one, is not modelled. In the source a `null` entry or name before the first match throws `NullReferenceException`.
- The side effects of `OnChange` handlers, and their removal with `-=`, are left out. The model counts subscribers and records each invocation.
- `AddToCart` takes a non-null part. The source accepts a `null` part without a check, and `GetTotalPrice` then throws `NullReferenceException` at `item.Price`. Such a `null` can arrive when a lookup that found no part is added straight to the cart. The `AutoPart` datatype has no null value, so this error path is not modelled.
- Thread safety is left out. The cart has no locking in the source.
- `GetCartItems` returns the live `List` in the source, so callers could change the cart through it. The model returns a `seq` value, so that aliasing is not captured.
