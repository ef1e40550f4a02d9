# Book catalogue lambdas, modelled in Dafny

A model of the two request handlers of a three-tier book catalogue web
application:

- the **book lookup** handler reads the `title` query parameter, answers
  400 when it is absent or empty, otherwise scans the `BookCatalog` table
  with an equality filter on the `Title` attribute, and answers 404 when
  nothing matches or 200 with the first matching item;
- the **description translation** handler reads `text` and `targetLang`
  from the JSON request body (defaults `""` and `"it"`, a missing body
  reading as `{}`), rejects a language outside the allowlist `it`, `pl`,
  `ru`, then rejects empty text, and only then calls the translation
  service once, from English to the target language.

Both handlers are pure functions of the request and the backend. The
table is a `seq<Record>` parameter and the scan is an order-preserving
filter on exact string equality (`Catalog.Scan`). The translation service
is a function parameter `translate(text, source, target)`. Each handler
returns an `Outcome` that holds the response triple (status, body,
headers) and the backend calls it issued, so "no backend call on invalid
input" can be stated. Bodies are the datatype
`Message | Book | Translated`, not JSON text. The status codes are those of
RFC 9110, sections 15.3.1 (200), 15.5.1 (400) and 15.5.5 (404).

The lookup handler issues only `ScanRequest`s, and the table is passed by
value and never returned, so the store is left unchanged by construction.

Files: `wrappers.dfy` (Option, dictionary lookup with default),
`catalog.dfy` (table items and the filtered scan), `responses.dfy`
(status codes, body, response), `get_book.dfy`,
`translate_description.dfy`.

## Model

| member | source | states |
|---|---|---|
| `Catalog.Scan` | aws-three-tier-webapp/lambda/getBook.py:26-29 | the scan returns no more items than the table holds, and each returned item is a table item whose `Title` equals the requested title |
| `Catalog.ScanMembership` | aws-three-tier-webapp/lambda/getBook.py:26-29 | an item is in the scan result if and only if it is in the table and its `Title` equals the requested title (case-sensitive exact equality) |
| `Catalog.ScanAppend` | aws-three-tier-webapp/lambda/getBook.py:26-29 | the scan keeps store order: scanning two consecutive parts of the table gives the first part's matches followed by the second part's |
| `Catalog.ScanEmptyIff` | aws-three-tier-webapp/lambda/getBook.py:29-32 | the scan returns no items exactly when no table item has the requested title |
| `Catalog.ScanHeadIsFirstMatch` | aws-three-tier-webapp/lambda/getBook.py:42-43 | the first item of a non-empty scan is the table's first item, in store order, whose `Title` equals the requested title |
| `GetBook.BookHeaders` | aws-three-tier-webapp/lambda/getBook.py:19-22 | the lookup header map has exactly the keys `Content-Type` (`application/json`) and `Access-Control-Allow-Origin` (the CloudFront origin) |
| `GetBook.RequestedTitle` | aws-three-tier-webapp/lambda/getBook.py:11-12 | the title is empty exactly when the parameter map is absent, has no `title` key, or has an empty value; otherwise it is the `title` value |
| `GetBook.HandleLookup` | aws-three-tier-webapp/lambda/getBook.py:9-53 | every response has the lookup header map and status 400, 404 or 200; 400 with `Title parameter is required` and no scan exactly when the title is missing; otherwise one scan filtered on `Title`; 404 with `Book not found` exactly when no table item has the title; 200 with the first matching item in store order |
| `TranslateDescription.CorsHeaders` | aws-three-tier-webapp/lambda/translateDescription.py:11-16 | the translation header map has exactly the four CORS entries with their fixed values |
| `TranslateDescription.ReprItemsContains` | aws-three-tier-webapp/lambda/translateDescription.py:28 | every element of a list of strings appears, quoted, in the list's Python rendering |
| `TranslateDescription.InvalidLanguageMessageNamesAllowlist` | aws-three-tier-webapp/lambda/translateDescription.py:8-28 | the invalid-language message names each allowed language |
| `TranslateDescription.InvalidLanguageMessageText` | aws-three-tier-webapp/lambda/translateDescription.py:28 | the invalid-language message is exactly `Invalid target language. Choose one of ['it', 'pl', 'ru']` |
| `TranslateDescription.RequestedText` | aws-three-tier-webapp/lambda/translateDescription.py:20-21 | a missing body or a missing `text` gives the empty string; a present `text` (string or null) is taken as it is |
| `TranslateDescription.RequestedLanguage` | aws-three-tier-webapp/lambda/translateDescription.py:20-22 | a missing body or a missing `targetLang` gives `it`; a present `targetLang` (string or null) is taken as it is |
| `TranslateDescription.HandleTranslate` | aws-three-tier-webapp/lambda/translateDescription.py:18-51 | every response has the CORS header map and status 400 or 200; 200 exactly when the language is allowed and the text non-empty; a disallowed language gives 400 with the allowlist message and no call; an allowed language with empty text gives 400 with `Text is required` and no call; otherwise exactly one call `(text, en, targetLang)` and the body carries its result |
| `TranslateDescription.LanguageCheckedBeforeText` | aws-three-tier-webapp/lambda/translateDescription.py:25-38 | a disallowed language together with empty text is answered with the invalid-language message, not with `Text is required` |
| `TranslateDescription.DefaultTargetIsItalian` | aws-three-tier-webapp/lambda/translateDescription.py:22-45 | non-empty text without `targetLang` is translated by one call `(text, en, it)` and answered with 200 and its result |
| `TranslateDescription.MissingBodyNeedsText` | aws-three-tier-webapp/lambda/translateDescription.py:20-38 | a missing body reads as `{}`: the default language passes, the empty text is refused with 400 `Text is required`, and no call is made |

## Left out

- Construction of the DynamoDB resource, the table handle and the Translate client (region `eu-north-1`, table `BookCatalog`): these are SDK calls; the table and the translator are parameters instead.
- Scan pagination: the handler reads only `Items` of the first scan page and ignores `LastEvaluatedKey`; the model scans the whole given sequence.
- Scan order: the store defines the order of scan results; the model takes the order of the given sequence.
- JSON decoding of the request body and encoding of the response body, and the errors of malformed bodies (including a body that decodes to something other than an object).
- Non-string values: item attributes are strings only (numbers, which the store returns as decimals that `json.dumps` cannot encode, are not modelled), and body fields are absent, null or a string (other JSON values are not modelled).
- Faults raised by the store or the translation service: they propagate unhandled to the platform and have no local handling to model.
- The Lambda `context` argument: neither handler reads it.
- `TranslateDescription.Quoted`: renders a string as Python's `repr` does only for strings without quotes, backslashes or control characters, which holds for the allowlist entries.
- The browser front end (`frontend/script.js`): DOM updates and `fetch` calls, with no logic of its own.
