# ZinfoFramework crawler engine and extension helpers, in Dafny

This project models two parts of ZinfoFramework.

**The headless crawler's step engine.** A crawl is a tree of step classes.
- A step built on `BaseSteps` either runs the children it registered with `AddStep`, one after another, or has no children and performs one HTTP exchange through `Execute.Start`.
- The exchange builds the request and sets the `Cookie` header from the context's jar. It then applies the step's static headers and sends.
- The status is a success in the range [200, 400). The body is kept only on a success.
- The reply's `Set-Cookie` values are merged back into the jar.
- All steps share one `AbstractContext`. It holds the execution id, `LastStep`, the cookie jar, the response object with its monotone finished flag, the logger and the HTTP client.

**The extension helpers.** These are:
- the string functions of `StringExtension` (blank guards, slicing, the accent table, word filters, white-space normalising, base 64 per section 4 of RFC 4648, credentials);
- pagination and joining in `ListExtensions`;
- instalment plans in `DecimalExtension`;
- calendar helpers in `DateTimeExtension`;
- parity in `IntExtension`.

**Layout.**

| file | role |
|---|---|
| `common.dfy` | nullable values, exceptions, C#'s `int` |
| `dictionary.dfy` | a .NET `Dictionary` as its entries in enumeration order |
| `logging.dfy` | the logger as the record of its calls |
| `http.dfy` | the request message and the client |
| `domain.dfy` | `RobotResponseBase` and `AbstractContext` |
| `parameters.dfy` | `Parameters` |
| `cookies_helper.dfy` | `CookiesHelper` |
| `header_helper.dfy` | `HeaderHelper` |
| `engine.dfy` | the step engine as functions on values |
| `steps.dfy` | `Execute` and `BaseSteps` as one imperative class proved equal to those functions |
| `engine_props.dfy` | what whole runs guarantee |
| `text.dfy`, `utf8.dfy`, `base64.dfy` | the .NET string, UTF-8 and base-64 primitives the helpers call |
| one file per extension class | the extension helpers |

**How things are represented.**
- **Step classes.** A concrete step class is a value (`Engine.StepType`) holding:
  - its name;
  - what its constructor does;
  - the children it registers;
  - its `PreCondition` and `PosCondition`;
  - when its `After` override calls `Finish`.

  This replaces `Activator.CreateInstance`.
- **Transport.** The client answers with a fixed function of the requests sent so far. The answer is an exception from `SendAsync`, an exception from `Result`, or a reply with a status, the `Set-Cookie` values and a body that may fail to read.
- **Documentation and code.** The comment on `ToStandardSpaces` (ZinfoFramework.Extensions/StringExtension.cs:268) says that text of white space only comes back unchanged. The code's guard is `IsNullOrEmpty`, so such text becomes " ". The model follows the code (`BlankBecomesOneSpace`).
- **Library functions.** The query-string and form encoders are uninterpreted functions. So is the parser of `System.Uri`, which either refuses a URL or gives its canonical text.

## Model

| member | source | states |
|---|---|---|
| Domain.RobotResponseBase.constructor | ZinfoFramework.HeadlessCrawler/Domain/RobotResponseBase.cs:8-10 | a new response is not finished and has no detail |
| Domain.RobotResponseBase.Finish | ZinfoFramework.HeadlessCrawler/Domain/RobotResponseBase.cs:28-31 | afterwards the response is finished; nothing else changes, and no member ever sets the flag back |
| Domain.RobotResponseBase.SetContexto | ZinfoFramework.HeadlessCrawler/Domain/RobotResponseBase.cs:17-21 | changes nothing, whether or not the context is null |
| Domain.AbstractContext.constructor | ZinfoFramework.HeadlessCrawler/Domain/AbstractContext.cs:56-61 | holds the given client and logger, the freshly generated id, an empty jar, no request, no response and no login |
| Domain.AbstractContext.SetLogin | ZinfoFramework.HeadlessCrawler/Domain/AbstractContext.cs:63-71 | LastStep becomes "Início" and the login/password pair is stored; every other field is kept |
| Domain.AbstractContext.SetExecutionId | ZinfoFramework.HeadlessCrawler/Domain/AbstractContext.cs:73-79 | null and "" leave the id; any other string, blank ones included, becomes the id; nothing else changes |
| Domain.AbstractContext.SetResponse | ZinfoFramework.HeadlessCrawler/Domain/AbstractContext.cs:36-39 | the response slot holds exactly the given object; the other fields are kept |
| Domain.AbstractContext.GetResponse | ZinfoFramework.HeadlessCrawler/Domain/AbstractContext.cs:31-34 | returns the object last stored |
| Domain.AbstractContext.SetRequest | ZinfoFramework.HeadlessCrawler/Domain/AbstractContext.cs:46-49 | the request slot holds exactly the given object; the other fields are kept |
| Domain.AbstractContext.GetRequest | ZinfoFramework.HeadlessCrawler/Domain/AbstractContext.cs:41-44 | returns the object last stored |
| Domain.AbstractContext.LogTrace | ZinfoFramework.HeadlessCrawler/Domain/AbstractContext.cs:83-86 | exactly one Trace line `Id: '<id>' - <message>` is logged |
| Domain.AbstractContext.LogInfo | ZinfoFramework.HeadlessCrawler/Domain/AbstractContext.cs:88-91 | exactly one Info line `Id: '<id>' - <message>` is logged |
| Domain.AbstractContext.LogError | ZinfoFramework.HeadlessCrawler/Domain/AbstractContext.cs:93-98 | logs the Info line, then the Trace line with the same text, then the exception, in that order |
| Domain.AbstractContext.DisposeCore | ZinfoFramework.HeadlessCrawler/Domain/AbstractContext.cs:106-126 | the first call with `disposing` empties the jar; every call leaves the object disposed; a later call changes nothing; the client is never touched |
| Domain.AbstractContext.Dispose | ZinfoFramework.HeadlessCrawler/Domain/AbstractContext.cs:128-132 | the first call empties the jar and a second does nothing |
| Dictionary.Get | ZinfoFramework.HeadlessCrawler/Core/Parameters.cs:11 | `TryGetValue` finds a value exactly when the key is present, and the value found is stored under that key |
| Dictionary.PutGet | ZinfoFramework.HeadlessCrawler/Core/CookiesHelper.cs:30-31 | remove-then-add keeps the keys distinct, binds the key to the new value and leaves every other key as it was |
| Dictionary.PutKeys | ZinfoFramework.HeadlessCrawler/Core/CookiesHelper.cs:30-31 | an overwritten key keeps its place in enumeration order; a new key goes last |
| Dictionary.PutToMap | ZinfoFramework.HeadlessCrawler/Core/Execute.cs:149-150 | seen as a map, remove-then-add is map update |
| Dictionary.PutAllValid | ZinfoFramework.HeadlessCrawler/Core/Execute.cs:147-151 | merging a jar never duplicates a key, and the old keys keep their order at the front |
| Dictionary.PutAllGet | ZinfoFramework.HeadlessCrawler/Core/Execute.cs:147-151 | after the merge a name from the response has the response's value and every other name keeps its old value |
| RequestParameters.AddEntrySpec | ZinfoFramework.HeadlessCrawler/Core/Parameters.cs:15-18 | `Add` throws exactly when the name is present; otherwise the name gets the value and every other name keeps its value |
| RequestParameters.Parameters.TryGetValue | ZinfoFramework.HeadlessCrawler/Core/Parameters.cs:11 | found exactly when the name is present, with its stored value; otherwise no value |
| RequestParameters.Parameters.Get | ZinfoFramework.HeadlessCrawler/Core/Parameters.cs:9-13 | the stored value, or null for an absent name, whatever the two flags |
| RequestParameters.Parameters.Add | ZinfoFramework.HeadlessCrawler/Core/Parameters.cs:17 | a present name, even with the same value, throws and leaves the map unchanged; a fresh name is appended and nothing else changes |
| RequestParameters.Parameters.Set | ZinfoFramework.HeadlessCrawler/Core/Parameters.cs:15-18 | the setter behaves as `Add` whatever the two flags |
| CookiesHelper.FirstSegment | ZinfoFramework.HeadlessCrawler/Core/CookiesHelper.cs:19 | the text before the first `;` is a prefix of the value without `;` |
| CookiesHelper.ParseSetCookieSpec | ZinfoFramework.HeadlessCrawler/Core/CookiesHelper.cs:19-28 | a value contributes nothing exactly when its first segment (the text before the first `;`) has no `=`; otherwise the name is the text before the first `=`, and the cookie's value is exactly the rest of that segment after the `=` with every `=` removed; neither holds `=` or `;` |
| CookiesHelper.RemoveCharFilters | ZinfoFramework.HeadlessCrawler/Core/CookiesHelper.cs:28 | `Replace("=", "")` keeps every other character, in order and as often as it occurs: it equals filtering out `=` |
| CookiesHelper.ParseIgnoresAttributes | ZinfoFramework.HeadlessCrawler/Core/CookiesHelper.cs:19 | whatever follows the first `;` has no effect |
| CookiesHelper.ParseRoundTrip | ZinfoFramework.HeadlessCrawler/Core/CookiesHelper.cs:19-28 | `name=value` and `name=value;attributes` give back (name, value) when neither holds `=` or `;` |
| CookiesHelper.ExtractedValid | ZinfoFramework.HeadlessCrawler/Core/CookiesHelper.cs:10-36 | the extracted jar has no repeated name, and none of its values contains `=` |
| CookiesHelper.ExtractedKeys | ZinfoFramework.HeadlessCrawler/Core/CookiesHelper.cs:15-31 | a name is in the extracted jar exactly when some `Set-Cookie` value sets it; with none, the jar is empty |
| CookiesHelper.ExtractedLastWins | ZinfoFramework.HeadlessCrawler/Core/CookiesHelper.cs:30-31 | a name gets its value from the last `Set-Cookie` value that sets it |
| CookiesHelper.ExtractCookiesFromResponse | ZinfoFramework.HeadlessCrawler/Core/CookiesHelper.cs:10-36 | the loop builds exactly the extracted jar of the response's `Set-Cookie` values |
| CookiesHelper.GetCookiesFromResponse | ZinfoFramework.HeadlessCrawler/Core/CookiesHelper.cs:60-87 | first wins: the value from the first well-formed `Set-Cookie` value with that name, or "" when there is none |
| CookiesHelper.SerializeDecode | ZinfoFramework.HeadlessCrawler/Core/CookiesHelper.cs:48-55 | read back at every `;` and first `=`, the Cookie header gives every entry of the jar in order |
| CookiesHelper.SerializeShape | ZinfoFramework.HeadlessCrawler/Core/CookiesHelper.cs:52 | every entry adds `name=value;`, so the header ends with `;` and holds no other characters |
| CookiesHelper.PutCookiesOnRequest | ZinfoFramework.HeadlessCrawler/Core/CookiesHelper.cs:38-58 | the same request comes back; an empty jar leaves the headers alone, and otherwise `Cookie` holds exactly one value, the serialised jar, and the other headers are kept |
| CookiesHelper.CopyCookiesFromResponse | ZinfoFramework.HeadlessCrawler/Core/CookiesHelper.cs:89-92 | the same as putting the jar extracted from the response on the request |
| HeaderHelper.OverrideSpec | ZinfoFramework.HeadlessCrawler/Core/HeaderHelper.cs:25-38 | each key of `headers` ends with exactly its one value; any other header is kept as it was; an empty map changes nothing |
| HeaderHelper.OverrideIdempotent | ZinfoFramework.HeadlessCrawler/Core/HeaderHelper.cs:27-35 | applying the same headers twice gives the headers of applying them once |
| HeaderHelper.OverrideStep | ZinfoFramework.HeadlessCrawler/Core/HeaderHelper.cs:29-34 | handling one more key replaces that header by its single value |
| HeaderHelper.PutHeaderOnRequest | ZinfoFramework.HeadlessCrawler/Core/HeaderHelper.cs:25-38 | the same request comes back, its headers overridden in place and its content untouched |
| Steps.Step.constructor | ZinfoFramework.HeadlessCrawler/Core/Execute.cs:30-39 | the field initialisers: no parameters, no headers, an empty body, no override, form body, GET, no children |
| Steps.Step.SetIsGet | ZinfoFramework.HeadlessCrawler/Core/Execute.cs:154-160 | sets `IsGET`; `IsPOST` reads as its negation; nothing else changes |
| Steps.Step.SetIsPost | ZinfoFramework.HeadlessCrawler/Core/Execute.cs:156-160 | setting `IsPOST` sets `IsGET` to the opposite; nothing else changes |
| Steps.Step.SetPostBody | ZinfoFramework.HeadlessCrawler/Core/Execute.cs:37 | the `PostBody` setter changes nothing |
| Steps.Step.AddParameter | ZinfoFramework.HeadlessCrawler/Core/Execute.cs:43-46 | a present name throws and changes nothing; a fresh name is appended |
| Steps.Step.GetParameter | ZinfoFramework.HeadlessCrawler/Core/Execute.cs:48-52 | the stored value, or null for an absent name |
| Steps.Step.AddPostBody | ZinfoFramework.HeadlessCrawler/Core/Execute.cs:54-58 | the raw body is selected with UTF-8 as the default encoding, and `PostBody` now returns it; nothing else changes |
| Steps.Step.AddStep | ZinfoFramework.HeadlessCrawler/Composite/BaseSteps.cs:42-47 | appends exactly one descriptor and changes nothing else |
| Steps.Step.RunSetup | ZinfoFramework.HeadlessCrawler/Composite/BaseSteps.cs:28 | one action of a step constructor has the effect the value model gives it, or fails with its exception |
| Steps.Step.CreateInstance | ZinfoFramework.HeadlessCrawler/Composite/BaseSteps.cs:28 | a fresh step whose state is what its constructor makes of the arguments, or the constructor's exception |
| Steps.Step.CreateRequest | ZinfoFramework.HeadlessCrawler/Core/Execute.cs:62-87 | the request built is the one the value model builds: URL, verb, body and Cookie header; a GET without a URL throws ArgumentNullException; a malformed URL throws UriFormatException before any request exists |
| Steps.Step.MergeCookies | ZinfoFramework.HeadlessCrawler/Core/Execute.cs:147-151 | the jar becomes the old jar with every extracted cookie removed and added back; the rest of the context is kept |
| Steps.Step.After | ZinfoFramework.HeadlessCrawler/Core/Execute.cs:144-152 | the jar merge, plus the `Finish` of an overriding class, exactly as the value model says |
| Steps.Step.Receive | ZinfoFramework.HeadlessCrawler/Core/Execute.cs:111-128 | the reply handling matches the value model: status test, body, log line and `After` |
| Steps.Step.Send | ZinfoFramework.HeadlessCrawler/Core/Execute.cs:107-128 | sending, logging and handling the reply match the value model; transport exceptions come out unchanged |
| Steps.Step.ExecuteStart | ZinfoFramework.HeadlessCrawler/Core/Execute.cs:93-137 | the leaf exchange's outcome, events and new context are those of the value model's `Exchange` |
| Steps.Step.Start | ZinfoFramework.HeadlessCrawler/Composite/BaseSteps.cs:17-40 | the outcome, events and new context are those of the value model's `Start` |
| Steps.Step.StartChildren | ZinfoFramework.HeadlessCrawler/Composite/BaseSteps.cs:25-34 | the loop over the children matches the value model's `RunChildren`, kept as a loop invariant |
| Steps.Step.RunChild | ZinfoFramework.HeadlessCrawler/Composite/BaseSteps.cs:27-32 | one pass records LastStep, creates and starts the child, then either goes on or stops with the outcome of the children run |
| EngineProperties.AfterReplyFollows | ZinfoFramework.HeadlessCrawler/Core/Execute.cs:144-152 | `After` keeps the run invariant: id, base URL, what was sent and LastStep are kept; the jar stays free of duplicates; a finish request comes last |
| EngineProperties.ReceiveFollows | ZinfoFramework.HeadlessCrawler/Core/Execute.cs:111-128 | handling a reply keeps the run invariant |
| EngineProperties.ExchangeFollows | ZinfoFramework.HeadlessCrawler/Core/Execute.cs:93-137 | a leaf exchange keeps the run invariant and adds exactly its request to what was sent |
| EngineProperties.StartFollows | ZinfoFramework.HeadlessCrawler/Composite/BaseSteps.cs:17-40 | every run keeps the run invariant: the id, base URL and response slot stay; a set finished flag stays set; sent grows by exactly the exchanged requests; the log only grows; LastStep is the last child created; a finish request ends the run |
| EngineProperties.ChildrenFollows | ZinfoFramework.HeadlessCrawler/Composite/BaseSteps.cs:25-34 | the loop over the children keeps the same invariant |
| EngineProperties.SkipChangesNothing | ZinfoFramework.HeadlessCrawler/Composite/BaseSteps.cs:19-21 | with a false PreCondition or a finished response, the run changes no state and creates, sends and logs nothing |
| EngineProperties.ChildBreak | ZinfoFramework.HeadlessCrawler/Composite/BaseSteps.cs:27-32 | after a child returns normally, the loop goes on iff its PosCondition holds and the response is not finished; otherwise no later sibling is created, and when the response's flag is set the whole loop completes normally; a child that skipped itself is consulted the same way |
| EngineProperties.NothingAfterFinish | ZinfoFramework.HeadlessCrawler/Composite/BaseSteps.cs:21-32 | a finish request is the run's last event and leaves the flag set; a run started finished sends nothing |
| EngineProperties.LastStepIsLastCreated | ZinfoFramework.HeadlessCrawler/Composite/BaseSteps.cs:27 | afterwards LastStep names the last child created at any depth, or is unchanged when none was |
| EngineProperties.Dispatch | ZinfoFramework.HeadlessCrawler/Composite/BaseSteps.cs:23-38 | a step with children never builds or sends its own request and first creates its first child; a leaf sends exactly its built request with the static headers applied, or fails before sending |
| EngineProperties.TransmitSends | ZinfoFramework.HeadlessCrawler/Core/Execute.cs:106-109 | sending records exactly the one request and keeps it as the step's request |
| EngineProperties.ReceiveKeeps | ZinfoFramework.HeadlessCrawler/Core/Execute.cs:111-128 | handling the reply sends nothing more and keeps the request |
| EngineProperties.RequestShape | ZinfoFramework.HeadlessCrawler/Core/Execute.cs:62-87 | building the request throws iff it is a GET with no URL (ArgumentNullException) or the URL cannot be parsed (UriFormatException); URL_Override wins over URL_Base; the request keeps the parsed URI, which is what the log lines print; GET iff IsGET, with the query string and no body; POST has the form or the raw body; a static header replaces a same-named one, Cookie included |
| EngineProperties.RawBodySticks | ZinfoFramework.HeadlessCrawler/Core/Execute.cs:54-58 | once the raw body is selected, no later constructor action selects the form body again |
| EngineProperties.ReplyHandling | ZinfoFramework.HeadlessCrawler/Core/Execute.cs:106-133 | transport exceptions come out unchanged; on a reply, the body changes only on a readable success, a success whose body cannot be read fails with the read's exception, and otherwise the exchange completes normally (when the response's flag is set) and the reply's cookies override same-named jar entries and leave the others |
| EngineProperties.ReceiveHandling | ZinfoFramework.HeadlessCrawler/Core/Execute.cs:111-128 | on a success the body is taken, a body that cannot be read fails with the read's exception, and otherwise the step completes normally (when the response's flag is set) with the cookies merged, the reply's overriding same-named entries |
| EngineProperties.SmoothRun | ZinfoFramework.HeadlessCrawler/Composite/BaseSteps.cs:17-40 | with every PosCondition true, fixed PreConditions, no Finish and a reliable transport, the run completes and reaches exactly the enabled leaves under enabled ancestors, each once, in depth-first registration order |
| EngineProperties.SmoothChildren | ZinfoFramework.HeadlessCrawler/Composite/BaseSteps.cs:25-34 | the same for the children from the i-th on |
| ListExtensions.OrderedSpec | ZinfoFramework.Extensions/ListExtensions.cs:41 | the ordered source is sorted ascending or descending as asked, and is a permutation of the source |
| ListExtensions.Normalised | ZinfoFramework.Extensions/ListExtensions.cs:33-37 | 0 becomes 1 and any other value is kept |
| ListExtensions.PageSlice | ZinfoFramework.Extensions/ListExtensions.cs:43-45 | without overflow the items are the contiguous slice starting at itemsPerPage*(page-1), at most itemsPerPage long, and empty past the end |
| ListExtensions.SkipCountExact | ZinfoFramework.Extensions/ListExtensions.cs:44 | the 32-bit skip count equals the true product when that fits |
| ListExtensions.TotalPagesLeast | ZinfoFramework.Extensions/ListExtensions.cs:48 | TotalPages is the least p ≥ 1 with p*itemsPerPage ≥ TotalCount |
| ListExtensions.TotalPagesBound | ZinfoFramework.Extensions/ListExtensions.cs:48 | the page count fits in an `int` |
| ListExtensions.PagedList.constructor | ZinfoFramework.Extensions/ListExtensions.cs:103-109 | stores the page, page size and order, with no items yet |
| ListExtensions.ToPagedList | ZinfoFramework.Extensions/ListExtensions.cs:31-51 | normalised page and size are stored with the order; the items are that page of the ordered source; TotalCount is the source size; TotalPages as above; a source too big for `int` overflows |
| ListExtensions.AggregateIsJoin | ZinfoFramework.Extensions/ListExtensions.cs:74 | the fold puts the delimiter between consecutive elements only |
| ListExtensions.InLineConcatSplit | ZinfoFramework.Extensions/ListExtensions.cs:70-75 | joining with a one-character delimiter no element contains splits back into the list; a single element comes back unchanged |
| DecimalExtension.Round2 | ZinfoFramework.Extensions/DecimalExtension.cs:49 | the result is a whole number of cents, at most half a cent from the value, with the value's sign |
| DecimalExtension.Round2Midpoint | ZinfoFramework.Extensions/DecimalExtension.cs:49 | a midpoint rounds away from zero |
| DecimalExtension.AffordableDown | ZinfoFramework.Extensions/DecimalExtension.cs:44-47 | value/n falls as n grows, so fewer instalments stay affordable |
| DecimalExtension.OfferedIsRange | ZinfoFramework.Extensions/DecimalExtension.cs:42-50 | the counts offered are exactly 1..k, with 1 ≤ k ≤ maximum and k the largest affordable count |
| DecimalExtension.GetInstallments | ZinfoFramework.Extensions/DecimalExtension.cs:28-53 | throws iff value, maximum or minimum is ≤ 0; a value below the minimum gives {1 ↦ value}; otherwise the keys are the offered counts and each maps to value/n rounded half away from zero |
| DateTimeExtension.DaysInMonth | ZinfoFramework.Extensions/DateTimeExtension.cs:82 | Gregorian month lengths, 28 to 31, February 29 days exactly in leap years |
| DateTimeExtension.DifferencesAntisymmetric | ZinfoFramework.Extensions/DateTimeExtension.cs:26-69 | swapping the two dates negates both the day and the year difference |
| DateTimeExtension.DaysAtSameTime | ZinfoFramework.Extensions/DateTimeExtension.cs:26 | at equal times of day, the day difference is the difference of day numbers |
| DateTimeExtension.YearsBlocks | ZinfoFramework.Extensions/DateTimeExtension.cs:69 | for a forward difference, the years are the whole 365-day blocks of the day count |
| DateTimeExtension.LastDayOfMonthSpec | ZinfoFramework.Extensions/DateTimeExtension.cs:82-95 | year and month kept, midnight, the day before the next month's first; the test holds iff the day is the month's length, whatever the time |
| DateTimeExtension.FirstDayOfMonthSpec | ZinfoFramework.Extensions/DateTimeExtension.cs:108-121 | year and month kept, day 1 at midnight; the test holds iff the day is 1, whatever the time |
| DateTimeExtension.ToDateWithLastMinute | ZinfoFramework.Extensions/DateTimeExtension.cs:178 | the same calendar date at 23:59:59, one second before the next midnight, with no fraction |
| DateTimeExtension.AgeByBirthday | ZinfoFramework.Extensions/DateTimeExtension.cs:211-226 | the age is the year difference less one when the birthday is still to come in the compare year; 29 February clamps correctly |
| DateTimeExtension.AgeBounds | ZinfoFramework.Extensions/DateTimeExtension.cs:211-226 | ToAge(b, b) = 0; the age is ≥ 0 from the birth date on; it is the year difference or one less |
| IntExtension.Parity | ZinfoFramework.Extensions/IntExtension.cs:25-32 | IsEven iff the number is divisible by 2; IsOdd is its negation; the C# remainder of an odd number is -1 when it is negative and 1 when it is positive |
| IntExtension.NegationKeepsParity | ZinfoFramework.Extensions/IntExtension.cs:32 | IsEven(x) = IsEven(-x) for x > int.MinValue |
| IntExtension.ConsecutiveParity | ZinfoFramework.Extensions/IntExtension.cs:25-32 | x and x+1 have opposite parity when x+1 does not overflow |
| StringExtension.RemoveChars | ZinfoFramework.Extensions/StringExtension.cs:411-419 | the loop yields exactly the characters not in `chars`, in order |
| StringExtension.RemoveSpaces | ZinfoFramework.Extensions/StringExtension.cs:400-403 | no space is left, and every other character keeps its count and order |
| StringExtension.FilterCounts | ZinfoFramework.Extensions/StringExtension.cs:414 | a filter keeps every accepted character as often as it occurs and no rejected one |
| StringExtension.OnlyNumbers | ZinfoFramework.Extensions/StringExtension.cs:460-464 | only characters `char.IsDigit` accepts, each as often as in the input |
| StringExtension.OnlyAlfaNumeric | ZinfoFramework.Extensions/StringExtension.cs:471-475 | only characters `char.IsLetterOrDigit` accepts, each as often as in the input |
| StringExtension.ToWithoutFirstCharacter | ZinfoFramework.Extensions/StringExtension.cs:29-35 | a blank value comes back as it is; otherwise exactly the first character is dropped |
| StringExtension.ToTruncateWithMaxLength | ZinfoFramework.Extensions/StringExtension.cs:149-154 | a blank value comes back as it is, even when longer than maxLength; otherwise the prefix of length min(length, maxLength); a negative maxLength throws only on a non-blank value |
| StringExtension.Extract | ZinfoFramework.Extensions/StringExtension.cs:71-83 | "" when either delimiter is missing |
| StringExtension.ExtractSpec | ZinfoFramework.Extensions/StringExtension.cs:75-77 | otherwise a slice of the value that starts right after an occurrence of the first delimiter with no further occurrence of it wholly after that point (from the start when it is empty), and ends where the first occurrence of the second delimiter starting at or after that point begins, or at the end of the value |
| StringExtension.UnaccentTable | ZinfoFramework.Extensions/StringExtension.cs:178-186 | each of the 48 accented characters maps to the plain letter at its own position |
| StringExtension.UnaccentPlain | ZinfoFramework.Extensions/StringExtension.cs:181-189 | each character is either kept or replaced by a plain ASCII letter |
| StringExtension.UnaccentTwice | ZinfoFramework.Extensions/StringExtension.cs:181-189 | the replacement is never replaced again, and a character outside the table is kept |
| StringExtension.Unaccented | ZinfoFramework.Extensions/StringExtension.cs:181-189 | length is preserved and each position is mapped on its own |
| StringExtension.UnaccentedIdempotent | ZinfoFramework.Extensions/StringExtension.cs:181-189 | applying the table twice is applying it once |
| StringExtension.ToWithoutSpecialCharacter | ZinfoFramework.Extensions/StringExtension.cs:168-192 | as written: a blank value comes back as it is; otherwise only the accent table is applied |
| StringExtension.DocExampleKeepsPunctuation | ZinfoFramework.Extensions/StringExtension.cs:172-174 | as written, "a.b-c" for digit groups a, b, c comes back with its punctuation, so not "abc" |
| StringExtension.StripInClass | ZinfoFramework.Extensions/StringExtension.cs:172 | what the regular expression leaves is inside its character class |
| StringExtension.StripAppend | ZinfoFramework.Extensions/StringExtension.cs:172 | the regular expression works on a concatenation piece by piece, carrying the quote look-behind across |
| StringExtension.StripDigits | ZinfoFramework.Extensions/StringExtension.cs:172 | digits pass the regular expression unchanged |
| StringExtension.WithoutSpecialCharacter | ZinfoFramework.Extensions/StringExtension.cs:168-192 | as intended: a blank value comes back as it is; otherwise only plain letters, digits and spaces remain |
| StringExtension.DocExampleWithoutPunctuation | ZinfoFramework.Extensions/StringExtension.cs:168-192 | with the replacement kept, "a.b-c" for digit groups a, b, c gives "abc", as the documentation's "21.000-000" → "21000000" says |
| StringExtension.ToOnlyNumbers | ZinfoFramework.Extensions/StringExtension.cs:98-105 | a blank value comes back as it is |
| StringExtension.OnlyNumbersAreDigits | ZinfoFramework.Extensions/StringExtension.cs:98-105 | otherwise exactly the ASCII digits of the value, in order, with or without the regular expression inside ToWithoutSpecialCharacter |
| StringExtension.ToRemoveWords | ZinfoFramework.Extensions/StringExtension.cs:122-134 | a blank value comes back as it is; otherwise the loop gives the ' '-separated pieces at least countLetter long, joined by single spaces and trimmed |
| StringExtension.KeptStep | ZinfoFramework.Extensions/StringExtension.cs:129-131 | each pass appends the word and a space exactly when the word is long enough |
| StringExtension.LongWordsKept | ZinfoFramework.Extensions/StringExtension.cs:129-131 | the kept words are pieces of the input, each at least countLetter long, and no more of them than pieces |
| StringExtension.RemoveWordsExample | ZinfoFramework.Extensions/StringExtension.cs:115-119 | five words where only the first and last are at least 4 long, as in "Fulano de Tal da Silva", give "first last" |
| StringExtension.RemoveNoWords | ZinfoFramework.Extensions/StringExtension.cs:122-134 | with countLetter ≤ 0 a trimmed value comes back unchanged |
| StringExtension.ToUpperCaseFirstLetter | ZinfoFramework.Extensions/StringExtension.cs:206-211 | a blank value comes back as it is; otherwise only the first character is upper-cased |
| StringExtension.ToLowerCaseFirstLetter | ZinfoFramework.Extensions/StringExtension.cs:225-230 | a blank value comes back as it is; otherwise only the first character is lower-cased |
| StringExtension.ToUpperCaseFirstLetterEachWord | ZinfoFramework.Extensions/StringExtension.cs:244-265 | a blank value comes back as it is; otherwise the loop gives the standardised, lower-cased words, the first word and every word longer than 2 capitalised, joined by spaces and trimmed |
| StringExtension.CapitalisedWords | ZinfoFramework.Extensions/StringExtension.cs:253-262 | every word the rule does not skip starts with its upper-case initial and keeps the rest |
| StringExtension.TabsToSpaces | ZinfoFramework.Extensions/StringExtension.cs:286 | every tab becomes a space and nothing else changes |
| StringExtension.CollapseShape | ZinfoFramework.Extensions/StringExtension.cs:288 | only ' ' remains as white space, never two in a row, and the other characters stay in order |
| StringExtension.CollapseRun | ZinfoFramework.Extensions/StringExtension.cs:288 | a maximal run of white space between solid text becomes exactly one space, and the text on either side is collapsed on its own |
| StringExtension.CollapseSolid | ZinfoFramework.Extensions/StringExtension.cs:288 | a character that is not white space passes unchanged |
| StringExtension.StandardSpacesExample | ZinfoFramework.Extensions/StringExtension.cs:274-276 | four words separated by runs of spaces of any length, as in "Uma    frase        com espaços.", come out separated by single spaces |
| StringExtension.ToStandardSpaces | ZinfoFramework.Extensions/StringExtension.cs:279-289 | "" comes back as it is, and only "" gives "" |
| StringExtension.BlankBecomesOneSpace | ZinfoFramework.Extensions/StringExtension.cs:281-288 | text of white space only becomes a single space, since the guard lets only "" through |
| StringExtension.StandardSpacesSpec | ZinfoFramework.Extensions/StringExtension.cs:279-289 | no white space but ' ', no two white-space characters in a row, and the same other characters in the same order |
| StringExtension.CollapseStandard | ZinfoFramework.Extensions/StringExtension.cs:288 | text already in standard form is left alone |
| StringExtension.StandardSpacesIdempotent | ZinfoFramework.Extensions/StringExtension.cs:279-289 | standardising twice is standardising once |
| StringExtension.LookaheadSomewhere | ZinfoFramework.Extensions/StringExtension.cs:307 | a `(?=.*X)` lookahead matches somewhere iff the value holds an X |
| StringExtension.ContainsNumbersSpec | ZinfoFramework.Extensions/StringExtension.cs:303-308 | true iff the value is not blank and holds an ASCII digit |
| StringExtension.ContainsUpperCaseLetterSpec | ZinfoFramework.Extensions/StringExtension.cs:322-327 | true iff the value is not blank and holds a letter A-Z |
| StringExtension.FirstWordSpec | ZinfoFramework.Extensions/StringExtension.cs:482-486 | the first word follows only spaces, holds no space, ends at a space or the end, and is empty iff there is no word |
| StringExtension.LastWord | ZinfoFramework.Extensions/StringExtension.cs:493-497 | throws exactly for a null source |
| StringExtension.OneWord | ZinfoFramework.Extensions/StringExtension.cs:482-497 | a string without spaces is its own first and last word |
| StringExtension.HasValue | ZinfoFramework.Extensions/StringExtension.cs:524-527 | true iff the value is not null and has a character that is not white space |
| StringExtension.IsEmpty | ZinfoFramework.Extensions/StringExtension.cs:534-537 | exactly the negation of HasValue: true iff the value is null or all white space |
| StringExtension.ToBase64 | ZinfoFramework.Extensions/StringExtension.cs:349 | "" for a blank value |
| StringExtension.FromBase64 | ZinfoFramework.Extensions/StringExtension.cs:338 | "" for a blank value; the only failure is a FormatException |
| StringExtension.ToBase64Solid | ZinfoFramework.Extensions/StringExtension.cs:349 | the base 64 of a non-blank value is not blank |
| StringExtension.Base64RoundTrip | ZinfoFramework.Extensions/StringExtension.cs:338-349 | FromBase64(ToBase64(s)) = s for non-blank s |
| StringExtension.FromCredentialBase64 | ZinfoFramework.Extensions/StringExtension.cs:364-378 | as written: it throws iff the value is blank (NullReferenceException), is not base 64 (the FormatException of FromBase64) or decodes to text without ':' (FormatException); a result has exactly the keys user and password, neither containing ':', and user:password starts the decoded text and is followed by ':' or by nothing, so the password runs up to the second ':' |
| StringExtension.CredentialRoundTrip | ZinfoFramework.Extensions/StringExtension.cs:364-378 | a user and password without ':' come back from their base 64 |
| StringExtension.ColonInPasswordIsLost | ZinfoFramework.Extensions/StringExtension.cs:371-375 | as written, a password with a ':' keeps only the text up to that ':' |
| StringExtension.FromCredentialBase64Intended | ZinfoFramework.Extensions/StringExtension.cs:364-378 | as intended: the same three errors in the same cases; the user has no ':' and user:password is exactly the decoded text, so the password is everything after the first ':' |
| StringExtension.CredentialIntendedRoundTrip | ZinfoFramework.Extensions/StringExtension.cs:364-378 | as intended, any password, colons included, comes back whole |
| Base64.DecodeEncode | ZinfoFramework.Extensions/StringExtension.cs:338-349 | `Convert.FromBase64String` undoes `Convert.ToBase64String` (section 4 of RFC 4648) |
| Base64.Encode | ZinfoFramework.Extensions/StringExtension.cs:349 | the encoding is a whole number of 4-character groups, empty iff the bytes are |
| Utf8.DecodeEncode | ZinfoFramework.Extensions/StringExtension.cs:338-349 | decoding the UTF-8 bytes of a string gives the string back |
| Text.JoinSplit | ZinfoFramework.Extensions/StringExtension.cs:371 | splitting a join at a separator no piece contains gives the pieces back |

## Left out

- **Transport and runtime.** The actual network, `ServicePointManager` settings and stream reading (ZinfoFramework.HeadlessCrawler/Core/Execute.cs:102-118) are replaced by the abstract transport described above. The query-string and form encoders and the URI parser are uninterpreted: the model says when a URL is refused and what text is logged, but not which URLs `System.Uri` accepts or how it canonicalises them.
- **Header names.** `HttpRequestHeaders` validates header names and compares them case-insensitively. Header names here are compared exactly, and no name is refused.
- **Reflection.** `Activator.CreateInstance` is replaced by step-class values. A constructor's argument check, if any, is part of its list of actions. `Execute.InicializarContexto` has no state of its own in the model, because the class reads the context it is handed.
- Steps.Step.CreateInstance, Engine.StepType: a step class registers one fixed list of children, with fixed arguments. In the source, `AddStep` is called from a constructor that receives `args` (ZinfoFramework.HeadlessCrawler/Composite/BaseSteps.cs:42-47), so which children are registered, and with which arguments, can depend on those args. Only the constructor's other actions see the arguments here.
- Engine.Start: a step class cannot register itself, directly or through a descendant, because a `StepType` value contains its children. In the source such a class makes `Start` recurse without bound, until the stack overflows. The model's termination, and `SmoothRun`, rely on this restriction.
- **`Before`.** It is an empty virtual method. An override of it is not modelled; an override of `After` is modelled only for its call to `Finish`.
- **Parameters.** `PreCondition` and `PosCondition` are functions of the step's fields and the session. They cannot change state.
- `HeaderHelper.ExtractHeadersFromResponse` is not part of this model. It delegates to `SetCookieHeaderValue.ParseList`.
- **Culture- and Unicode-dependent helpers.** `RemoveDiacritics`, `StrictCanonicalForm`, `IsMatchCanonicalForm`, the user-pattern `IsMatch`, and `RemoveWords` (StringExtension.cs:505-517) depend on normalisation, culture comparers or arbitrary regular expressions. They are not modelled. `char.ToUpperInvariant`, `ToLowerInvariant`, `ToLower`, `char.IsDigit` and `char.IsLetterOrDigit` are function parameters.
- **Null strings.** They are modelled only where the code tells null from "" (FirstWord, LastWord, HasValue, IsEmpty, ToInLineConcat, SetExecutionId). Elsewhere a blank-guarded helper takes a non-null string.
- **Strings.** They are sequences of Unicode scalar values. UTF-16 surrogate pairs are not modelled.
- **Date functions.** The ones based on doubles, clocks or parsing are not modelled: `ToMonthsBetweenDifferentDates`, `ToDaysToEndOfMonth`, `ToDaysToEndOfYear`, `TryParseDateTimeNullable`, and `ToAge` without a compare date. `IntExtension.TryParseIntNullable` is not modelled either.
- **GetInstallments precision.** It works on exact reals. The 28-digit precision of C#'s `decimal` is not modelled.
- **Logging backend.** Only the sequence of messages and exceptions handed to the logger is recorded.
- ListExtensions.ToPagedList: the ordering is a stable insertion sort on integer keys. `OrderBy` over a query provider may order equal keys differently, and only sortedness and permutation are promised.
- StringExtension.ToOnlyNumbers: it is defined on the corrected `WithoutSpecialCharacter`. `OnlyNumbersAreDigits` proves that its result is the same as with the as-written helper.
- StringExtension.ExtractSpec: for a first delimiter that can overlap itself (such as "aa"), several starts fit the contract. In "xaaay", both 3 and 4 fit. The contract does not single out the one that the left-to-right, non-overlapping scan of `Split` stops at, which is 3. For a delimiter that cannot overlap itself, the start is unique.
- StringExtension.RemoveWordsExample: the documented "Fulano de Tal da Silva" example is stated for any five space-free words with those lengths, not for the literal text.
- StringExtension.DocExampleKeepsPunctuation, StringExtension.DocExampleWithoutPunctuation: the "21.000-000" example is stated for any three groups of ASCII digits, not for the literal text.

## Findings

| source | as written | input that shows it | evidently intended | confidence | as-written member | corrected member |
|---|---|---|---|---|---|---|
| ZinfoFramework.Extensions/StringExtension.cs:172-174 | the result of `regex.Replace` is discarded, so only the accent table is applied | "21.000-000" (groups "21", "000", "000") comes back as "21.000-000" | the documented "21000000": characters outside the class are removed, then accents replaced | high, not executed | StringExtension.DocExampleKeepsPunctuation | StringExtension.DocExampleWithoutPunctuation |
| ZinfoFramework.Extensions/StringExtension.cs:371-375 | the password is the second piece of `Split(':')` | base 64 of "admin:pa:ss" gives password "pa" | the password is everything after the first ':', as the HTTP Basic scheme reads credentials (section 2 of RFC 7617) | medium, not executed | StringExtension.ColonInPasswordIsLost | StringExtension.CredentialIntendedRoundTrip |
