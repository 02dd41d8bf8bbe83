# Image-to-calendar backend: a verified model

The backend turns an uploaded image of an event (a flyer, a screenshot, an
invitation) into an entry on the user's Google Calendar. The FastAPI
endpoint saves the upload to a temporary file and calls `main`. `main`
asks a vision model for the event as JSON, strips a Markdown code fence from
the reply, decodes it and validates it. It then obtains OAuth credentials,
inserts the event and returns the event's `htmlLink`.

This project models the decision logic between those remote calls:

- `iso_datetime.dfy` (module `IsoDateTime`): a subset of the date-time
  strings that `datetime.fromisoformat` accepts after every `Z` is rewritten
  to `+00:00`.
  It has a parser, a renderer and proofs that the parser accepts exactly the
  well-formed rendered date-times. The calendar rules are the day-of-month
  limits of section 5.7 of RFC 3339 and the Gregorian leap years of
  Appendix C of RFC 3339.
- `json.dfy` (module `JsonValues`): the decoded JSON value and Python's `in`
  operator on it.
- `event_validation.dfy` (module `EventValidation`): `validate_event_details`.
- `fence.dfy` (module `FenceStripping`): the regular-expression search that
  cuts a fenced `{...}` block out of the reply, and the extraction step
  around it.
- `credentials.dfy` (module `Credentials`): `setup_google_credentials`, as a
  class whose field is token.json.
- `pipeline.dfy` (module `Pipeline`): the stage order of `main`.
- `endpoint.dfy` (module `Endpoint`): the content-type gate, the temporary
  file's lifecycle and the mapping of outcomes to HTTP responses.
- `wrappers.dfy` (module `Wrappers`): `Option` and `Result`. `Err(message)`
  stands for a raised exception.

The remote calls are inputs to the model. These are the vision model, the
JSON decoder, OAuth refresh and consent, and the calendar insert. Each is
given by what it returns or by the message of the exception it raises.

The code has no image allow-list and no size limit. It sets no default event
duration and does not check that the end comes after the start. It does no
timezone normalisation and supplies no placeholder title. It makes no retries
with backoff and puts no lock around token refresh. The model has none of
these either. Lemmas such as `EventValidation.NoOrderingBetweenStartAndEnd`
and `Endpoint.ImagePrefixDecides` record that they are absent.

## Model

| member | source | states |
|---|---|---|
| `JsonValues.PyContains` | backend/main.py:132 | `key in v` is key membership on a dict. It raises TypeError only on None, bools and numbers. |
| `IsoDateTime.DaysInMonth` | backend/main.py:142 | Months have 28 to 31 days. A month has 29 days exactly for February of a leap year, 28 for February otherwise, and 30 for April, June, September and November. |
| `IsoDateTime.ReplaceZRemovesZ` | backend/main.py:142 | `.replace('Z', '+00:00')` leaves no `Z`. It leaves a Z-free string unchanged and keeps every other character. |
| `IsoDateTime.ReplaceZAppend` | backend/main.py:142 | The replacement works piecewise: replacing in `a + b` is replacing in `a`, then in `b`. |
| `IsoDateTime.RenderParse` | backend/main.py:142 | Every well-formed date-time, written out, is accepted and parsed back to itself. |
| `IsoDateTime.ParseRender` | backend/main.py:142 | Whatever the parser accepts is a well-formed date-time, and writing it out gives back the input exactly. |
| `IsoDateTime.ParserLanguage` | backend/main.py:142 | A string parses if and only if it is the rendering of a well-formed date-time. |
| `IsoDateTime.TrailingZIsUtc` | backend/main.py:141-142 | A time with no offset followed by a trailing `Z` is accepted, with offset +00:00. |
| `IsoDateTime.NonexistentDateRejected` | backend/main.py:141-144 | A string is rejected, whatever follows, if its first ten characters name a date that does not exist. Examples are month 13, February 30 and February 29 of a common year. |
| `IsoDateTime.LeapDayAcceptedIffLeapYear` | backend/main.py:141-144 | `YYYY-02-29` is accepted exactly when YYYY is a Gregorian leap year. |
| `IsoDateTime.ParseDateTime` | backend/main.py:142 | `datetime.fromisoformat` on the modelled subset. Its contract is carried by `ParseRender`, `RenderParse` and `ParserLanguage`. |
| `IsoDateTime.ReplaceZ` | backend/main.py:142 | `.replace('Z', '+00:00')`. Its contract is carried by `ReplaceZRemovesZ` and `ReplaceZAppend`. |
| `IsoDateTime.IsoFormatAccepts` | backend/main.py:141-144 | The `try` succeeds exactly when the rewritten string parses. Its contract is carried by `TrailingZIsUtc`, `NonexistentDateRejected` and `LeapDayAcceptedIffLeapYear`. |
| `IsoDateTime.ValueOfDigits` | backend/main.py:142 | The fixed-width digit rendering of n reads back as n. |
| `IsoDateTime.DigitsOfValue` | backend/main.py:142 | A digit string is the fixed-width rendering of its own value. |
| `EventValidation.CheckRequired` | backend/main.py:130-133 | The required-field loop passes exactly when `key in details` holds for every field. |
| `EventValidation.FirstFailureReported` | backend/main.py:131-133 | The loop reports the first field that `in` does not confirm. The error is MissingField, or TypeError when `in` itself raised. |
| `EventValidation.CheckTimeField` | backend/main.py:136-144 | One time field passes exactly when it is a dict holding a `dateTime` str that the date-time parser accepts. Its error cases are stated by `MissingDateTimeReported` and `InvalidDateTimeReported`. |
| `EventValidation.CheckTimeFields` | backend/main.py:136-144 | The loop over `start` and `end` passes exactly when both fields hold an acceptable `dateTime`. |
| `EventValidation.ValidateEventDetails` | backend/main.py:146 | On success the validator returns its input unchanged. |
| `EventValidation.ValidateAcceptsExactly` | backend/main.py:126-146 | Validation succeeds if and only if the record is a dict with `summary` and with `start` and `end` dicts whose `dateTime` strs are accepted. |
| `EventValidation.FirstMissingFieldReported` | backend/main.py:130-133 | A dict lacking `summary`, `start` or `end` fails with "Missing required field: " and the first missing one, in that order. |
| `EventValidation.StartCheckedBeforeEnd` | backend/main.py:136-144 | When `start` is faulty, its own error is reported, whatever `end` holds. |
| `EventValidation.MissingDateTimeReported` | backend/main.py:136-138 | A `start` or `end` dict without `dateTime` fails with MissingDateTime for that field. `start` is checked first. |
| `EventValidation.InvalidDateTimeReported` | backend/main.py:136-144 | A `start` or `end` dict whose `dateTime` str the parser rejects fails with InvalidDateTime for that field, with message "Invalid datetime format in f: ". `start` is checked first. |
| `EventValidation.NoOrderingBetweenStartAndEnd` | backend/main.py:136-146 | Swapping an acceptable start and end still validates. No end-after-start check exists. |
| `EventValidation.Message` | backend/main.py:133-144 | The texts of the first two ValueErrors, "Missing required field: f" and "Missing dateTime in f". For the third it gives the prefix "Invalid datetime format in f: ". |
| `FenceStripping.SkipSpace` | backend/main.py:113 | `\s*` stops at the first non-whitespace character. Whitespace is Python's Unicode `\s` set. |
| `FenceStripping.OpenAt` | backend/main.py:113 | A '{' it reports starts a valid opening: three backquotes, an optional `json`, whitespace, then '{'. |
| `FenceStripping.OpenAtComplete` | backend/main.py:113 | Every valid opening at a start position is the one `OpenAt` finds, so the '{' is unique per start. |
| `FenceStripping.LastClose` | backend/main.py:113 | The greedy `.*`: the last '}' that is followed by whitespace and three backquotes, and None when there is no such '}'. |
| `FenceStripping.SearchFrom` | backend/main.py:113-114 | A reported match opens at its start, and its '}' closes after its '{'. |
| `FenceStripping.SearchFindsMatch` | backend/main.py:113-114 | The reported span is a match of the pattern. |
| `FenceStripping.SearchFindsLeftmost` | backend/main.py:114 | No match of the pattern starts at a position left of the reported one. |
| `FenceStripping.SearchFindsLongest` | backend/main.py:113-116 | No match from the same start has a longer group. |
| `FenceStripping.SearchFindsNothing` | backend/main.py:114-115 | When the search reports nothing, no match of the pattern starts at any position. |
| `FenceStripping.StripFence` | backend/main.py:113-116 | After a match, the content starts with '{' and ends with '}'. Without a match it is unchanged. `StripFenceIsGroup` shows that the content after a match is group 1 itself. |
| `FenceStripping.StripFenceIsGroup` | backend/main.py:113-116 | For the leftmost position where the pattern matches, and the longest group there, the stripped content is exactly that group 1. This is stated against the pattern alone. |
| `FenceStripping.UnfencedReplyUnchanged` | backend/main.py:113-120 | A reply with no three backquotes in it reaches `json.loads` as it is. |
| `FenceStripping.ExtractEventDetails` | backend/main.py:110-124 | An exception from the remote call propagates. A reply without a match is decoded as it is. A reply with one is decoded from the group `StripFence` cuts out, which starts with '{' and ends with '}'. |
| `Credentials.Decide` | backend/main.py:45-51 | The branch: reuse exactly a valid stored token; refresh exactly an invalid, expired one with a refresh token; consent otherwise. |
| `Credentials.Setup` | backend/main.py:37-56 | `setup_google_credentials` as a value: the credential or exception, the new token.json and the actions taken. Its contract is carried by `ValidTokenReused`, `RefreshOrConsent`, `TokenWrittenAfterSuccess`, `RefreshFailurePropagates` and `SetupReturnsActionResult`. |
| `Credentials.ValidTokenReused` | backend/main.py:42-56 | A valid stored token is returned as it is. There is no refresh, no consent and no write to token.json. |
| `Credentials.RefreshOrConsent` | backend/main.py:45-51 | Refresh is attempted only for an expired token with a refresh token, consent otherwise, and never both. |
| `Credentials.TokenWrittenAfterSuccess` | backend/main.py:45-54 | token.json is written exactly after a refresh or consent that succeeded. The write comes last and stores the returned credential. |
| `Credentials.RefreshFailurePropagates` | backend/main.py:46-47 | A refresh that raises is the outcome: no consent, and token.json keeps its old contents. |
| `Credentials.SetupReturnsActionResult` | backend/main.py:45-56 | When refresh runs, its outcome is returned: the refreshed credential or its exception. The same holds for consent, so a failed consent raises its own exception. |
| `Credentials.CredentialStore.constructor` | backend/main.py:41-43 | The store starts with token.json's contents, or none when the file is absent. |
| `Credentials.CredentialStore.SetupGoogleCredentials` | backend/main.py:37-56 | The method's result, the new token.json and the actions it appends are those of `Setup` on the old token.json. |
| `Pipeline.Run` | backend/main.py:160-193 | `main` as a value: the result, stages, token.json and credential actions. Its contract is carried by `StagesInOrder`, `MissingImageFailsFirst`, `AuthorizeOnlyAfterValidation`, `CredentialEffectsKept`, `LinkIsInsertLink` and `FailureIsLastStageError`. |
| `Pipeline.AuthorizeAndInsert` | backend/main.py:180-189 | The last two stages of `main` for a validated record. Its contract is carried by `AuthorizeOnlyAfterValidation`, `CredentialEffectsKept`, `LinkIsInsertLink`, `FailureIsLastStageError` and `CreateEvent`. |
| `Pipeline.FileSystem.constructor` | backend/main.py:169 | The files `os.path.exists` sees, exactly the given map. |
| `Pipeline.StagesInOrder` | backend/main.py:164-193 | A run enters a prefix of the five stages in order. A successful run enters all of them. |
| `Pipeline.MissingImageFailsFirst` | backend/main.py:169-170 | A missing image fails with "Image file not found: path" before any other stage or credential action. |
| `Pipeline.AuthorizeOnlyAfterValidation` | backend/main.py:174-182 | Credential setup runs exactly when the extracted details pass validation. Otherwise token.json is untouched and nothing is inserted. |
| `Pipeline.CredentialEffectsKept` | backend/main.py:180-189 | After a run that reached credential setup, token.json and the credential actions are those of setup, whether or not the insert then succeeds. |
| `Pipeline.LinkIsInsertLink` | backend/main.py:178-189 | A successful run returns exactly the `htmlLink` the insert returned for the extracted record and the set-up credential. |
| `Pipeline.FailureIsLastStageError` | backend/main.py:164-193 | A failed run re-raises the exception of the stage it stopped at, unchanged. That is the missing-file message, extraction's exception, validation's message, credential setup's exception or the insert's exception. |
| `Pipeline.ProcessImage` | backend/main.py:160-193 | The method's result, stages and credential changes are those of `Run`. The image-exists check reads the file system. |
| `Pipeline.CreateEvent` | backend/main.py:180-189 | Credential setup followed by the insert. Its result, stages and credential changes are those of the last two stages of `Run`. |
| `Endpoint.StartsWith` | backend/app.py:72 | `str.startswith`. Its contract is carried by `ContentTypeGate` and `ImagePrefixDecides`. |
| `Endpoint.ContentTypeGate` | backend/app.py:72-73 | Processing proceeds exactly for a content type starting with "image/". Any other content type gets 400 "File must be an image". A missing one escapes as an unhandled AttributeError. |
| `Endpoint.Respond` | backend/app.py:87-101 | Success gives the body with the link processing returned. An exception gives 500 with its message. |
| `Endpoint.ImagePrefixDecides` | backend/app.py:72 | Every "image/..." type passes and every other type gets 400. The gate never sees the bytes, so there is no size limit. |
| `Endpoint.Answer` | backend/app.py:72-101 | The handler's answer: the gate's refusal, or the `try` block's answer. Its contract is carried by `StatusCodesDisjoint` and `ProcessImageEndpoint`. |
| `Endpoint.StatusCodesDisjoint` | backend/app.py:72-101 | The handler answers 400 exactly for a present content type without the "image/" prefix. It answers 500 exactly when the gate passed and processing raised. |
| `Endpoint.Unlink` | backend/app.py:90 | `os.unlink(path)` removes exactly that path and leaves every other file and its contents as they were. |
| `Endpoint.ProcessImageEndpoint` | backend/app.py:68-101 | The response is `Answer` of the content type and of `Run` on the temporary path. A refused upload changes nothing and runs no stage. Otherwise the response maps `Run` on the temporary path. The temporary file is gone after success and holds the upload after a failure. |

## Left out

- The OpenAI chat-completions call and its prompt are a remote vision model. The reply text, or the message of the exception the call raised, is an input. A reply whose content is None makes `re.search` raise TypeError and counts as such an exception.
- `json.loads` is an external decoder given as a function. JSON numbers are kept as reals, and the NaN and Infinity literals Python also decodes have no representation.
- Building the Google client and `events().insert` are a network client. The insert is a function from the credential and the record to a link, a missing link, or an exception.
- `InstalledAppFlow.run_local_server` and `creds.refresh(Request())` are a browser flow and a network call. Only their outcome is kept: a credential or an exception.
- Reading and writing token.json cannot fail in the model. A token file is either absent or a credential, so the parse errors of `from_authorized_user_file` and the requested scopes are not modelled.
- `Credentials.Credential`: the `valid`, `expired` and refresh-token flags are independent. The clock that makes a token expire is outside the model.
- `encode_image` and base64 encoding are file I/O whose result only feeds the remote request.
- Loading `.env`, `DEFAULT_TIMEZONE`, logging, the debug decorators and request logging are process configuration or diagnostics. `backend/debug.py` re-raises every exception it logs, so it does not change any outcome.
- CORS, the health endpoint and the server launcher are HTTP plumbing.
- The handler is async and refreshes are not locked, but there is no concurrency in the model. Each call is one sequential run.
- `Endpoint.ProcessImageEndpoint`: creating the temporary file, reading the upload and `os.unlink` are taken to succeed. The suffix of the temporary name is not modelled. The fresh name the operating system picks is an input that is not yet a file.
- `EventValidation.Message`: for an invalid date-time it gives only the prefix "Invalid datetime format in <field>: ". The parser's own detail text after it is not modelled. Neither is the exact text of the TypeError and AttributeError that Python raises for values of the wrong kind. The model gives those placeholder messages.
- `IsoDateTime.ParseDateTime` accepts a subset of what `datetime.fromisoformat` accepts on Python 3.11 and later. The model takes only 'T' as the separator and needs minutes in a time. It takes offsets as `±HH:MM` only, and only after a time. It needs offset minutes below 60, where Python bounds only the whole offset below 24 hours and so reads `+05:75` as +06:15. It accepts no basic (digits-only) format, no week or ordinal dates, no ',' decimal mark and no more than six fraction digits. Python 3.10 and earlier take a fraction of exactly three or six digits, where the model takes one to six.
- `IsoDateTime.IsoFormatAccepts`: because only 'T' separates date and time, a date followed directly by `Z` is rejected. For example, `"2024-01-01Z"` becomes `"2024-01-01+00:00"`. Python 3.11 accepts that: it takes '+' as the separator and reads a naive 00:00. The model rejects it.
