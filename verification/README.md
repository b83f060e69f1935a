# Discount derivation of the trendware MCP server

The server exposes two tools to an agent runtime. `search_products_tool`
forwards a query to an upstream search endpoint and hands back its JSON
payload. `calculate_discount_tool` turns a free-form customer identifier
into a discount percentage. The second is the only piece of logic in the
server, and it is what this project models.

`calculate_discount_tool` works like this:

1. It coerces the argument with `str(customer_suffix or "")`.
2. It keeps the digit characters, in order.
3. With no digits it answers `{"error": "no_digits_found", "customer_suffix": s}`.
4. Otherwise it takes a tail of the digits. With three or more digits the
   tail is the last two. With fewer, the tail is the digits zero-filled to
   three characters.
5. It parses the tail with `int` and answers `{"discount_percent": n}`.
6. Any exception becomes `{"error": "internal", "message": ...}`.

The tool's docstring and its variable name `last3` speak of the last three
digits. The code takes the last two. The model follows the code.

Files:

- `decimal.dfy`, module `Decimal`: digit strings. It has the digit filter
  `Digits`, the base-10 value `Value`, Python's `zfill` as `ZFill`, and
  Python's `int` on a string as `ParseDecimal`.
- `discount.dfy`, module `DiscountTool`: the argument (`Suffix`), the JSON
  answer (`DiscountResult`) and `Derive`, the body of the tool, with the
  lemmas about it.

The central lemma is `DeriveClosedForm`. It gives an independent reference
definition: no digits gives the no-digits error, which echoes the coerced
string, and otherwise the percentage is the value of all the digits
modulo 100. Every other property of `Derive` follows from it.

## Model

| member | source | states |
|---|---|---|
| `Decimal.IsDigit` | trendware-server.py:65 | `c.isdigit()`, restricted to the ASCII digits '0'..'9' (see "## Left out") |
| `Decimal.DigitValue` | trendware-server.py:70 | a digit's weight is below 10 and is its position in "0123456789" |
| `Decimal.Digits` | trendware-server.py:65 | the filter's result consists only of digits and is no longer than its input |
| `Decimal.DigitsConcat` | trendware-server.py:65 | filtering distributes over concatenation, so the digits keep their order |
| `Decimal.DigitsEmptyIff` | trendware-server.py:65-66 | the filter leaves nothing exactly when the string has no digit character |
| `Decimal.DigitsOfAllDigits` | trendware-server.py:65 | a string of digits passes through the filter unchanged |
| `Decimal.DigitsCounts` | trendware-server.py:65 | each digit character occurs in the result as often as in the input, and other characters do not occur |
| `Decimal.Value` | trendware-server.py:70 | the value of a digit string of length k is below 10^k |
| `Decimal.ValueConcat` | trendware-server.py:70 | positional notation: the value of a + b is value(a) * 10^|b| + value(b) |
| `Decimal.LastTwoDigitsValue` | trendware-server.py:68-70 | the last two digits of a digit string are worth its value modulo 100 |
| `Decimal.ZFill` | trendware-server.py:68 | zfill yields max(len, width) characters and leaves a long enough string as it is; a shorter unsigned string is padded with '0' on the left, a signed one after its sign |
| `Decimal.ZFillValue` | trendware-server.py:68-70 | zero-filling a digit string keeps it a digit string and keeps its value |
| `Decimal.ParseDecimal` | trendware-server.py:70 | `int` succeeds exactly on a non-empty string of digits, with a value below 10^length |
| `DiscountTool.Coerce` | trendware-server.py:64 | `str(customer_suffix or "")`: a missing argument is the empty string, a string is itself |
| `DiscountTool.Derive` | trendware-server.py:63-73 | the tool never reports `internal` and every percentage lies in [0, 99]; its whole behaviour is stated by `DeriveClosedForm` |
| `DiscountTool.Tail` | trendware-server.py:68 | the tail is a non-empty digit string of two characters with three or more digits, of three otherwise |
| `DiscountTool.TailValue` | trendware-server.py:68-70 | the tail, parsed, is worth the value of all the digits modulo 100 |
| `DiscountTool.DeriveClosedForm` | trendware-server.py:63-73 | the result is `no_digits_found` with the coerced string when there are no digits, and otherwise the value of the digits modulo 100 |
| `DiscountTool.EmptyInput` | trendware-server.py:64-67 | a missing argument and the empty string both give `no_digits_found` echoing "" |
| `DiscountTool.NoDigitsIff` | trendware-server.py:64-67 | `no_digits_found` occurs exactly when the coerced string has no digit, and it echoes that string |
| `DiscountTool.ThreeOrMoreDigits` | trendware-server.py:68-71 | with three or more digits the percentage is the value of the last two |
| `DiscountTool.OneOrTwoDigits` | trendware-server.py:68-71 | with one or two digits the zero padding changes nothing: the percentage is the value of the digits |
| `DiscountTool.LastAtMostTwoDigits` | trendware-server.py:68-71 | every percentage is the value of the last min(2, number of digits) digits |
| `DiscountTool.InsertNonDigits` | trendware-server.py:65-71 | inserting non-digit characters anywhere keeps the digits and the result, except that `no_digits_found` echoes the longer string |
| `DiscountTool.SameDigitsSameResult` | trendware-server.py:65-71 | two inputs with the same ordered digits succeed together and then give the same percentage |
| `DiscountTool.DigitsOnly` | trendware-server.py:65 | when only the middle part holds digits, the digits of the whole are that part |
| `DiscountTool.ExampleMixed` | trendware-server.py:63-71 | "abc123xyz" gives 23 |
| `DiscountTool.ExampleFourDigits` | trendware-server.py:63-71 | "4567" gives 67 |
| `DiscountTool.ExampleOneDigit` | trendware-server.py:63-71 | "7" gives 7 |
| `DiscountTool.ExampleTwoDigits` | trendware-server.py:63-71 | "99" gives 99 |

## Left out

- `fetch_documents` (trendware-server.py:22-38): an HTTP GET through `requests`, with its status check and JSON decoding, that returns `{}` on any failure. This is network I/O behind a foreign library.
- `search_products_tool` (trendware-server.py:41-53): a JSON encode/decode round trip around the fetch, with `[]` on failure. It is library plumbing with no logic of its own.
- Document normalisation, where every document gets a `text` field: the docstring at trendware-server.py:23-27 promises it, but no code does it, so there is nothing to model.
- Configuration from the environment, logging, tool registration, the `async` wrappers and the server entry point (trendware-server.py:9-19, 41-42, 56-57, 75-80): process and transport plumbing.
- `IsDigit`: digits are the ASCII characters '0'..'9'. Python's `str.isdigit` also accepts other Unicode digits, such as superscripts, and `int` rejects some of those. That raise is the only way to reach the `internal` error. Under the ASCII model that branch stays in `Derive` but is unreachable, as the contract of `Derive` proves.
- Unicode decimal digits that both `isdigit` and `int` accept are also not modelled. On such inputs the source can give a different percentage, or a percentage where the model gives `no_digits_found`. For "1٢3", with an Arabic-Indic two, the source keeps all three digits and answers 23, while the model keeps "13" and answers 13. `NoDigitsIff`, `InsertNonDigits` and `SameDigitsSameResult` speak of ASCII digits only.
- `Suffix` is either absent or a string. Arguments of other types, which `str()` would render, are not modelled.
- `ParseDecimal`: does not model the signs, surrounding whitespace and underscores that Python's `int` also accepts, because the tail handed to it is always made of digits.
