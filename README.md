# License-plate recognition client, modelled in Dafny

This project models the recognition client of a small license-plate reader
(`app.py`). `GeminiModel.extract_text_from_image` sends an image and a prompt
to an external text-generation service. It makes up to `retries` attempts
(default 3), with a fixed 30-second pause after each failed attempt that is
not the last. It accepts the first reply whose stripped text is non-empty and
holds a letter or digit. That reply becomes a list of plates: split on `'\n'`
(a lone `'\r'` does not split), strip each line, drop the empty ones. The page exports the plates as
`"\n".join(plates)`.

The model has three modules:

- `Text` (`Text.dfy`) holds the Python string operations the client and the
  page's export use:
  `str.strip()`, `str.isalnum()`, `str.split('\n')` and `"\n".join`.
- `Normalizer` (`Normalizer.dfy`) covers reply validation, the line-cleaning
  comprehension and the export payload `Join(plates)`. It proves that an accepted reply
  always yields plates, and that the export payload normalizes back to the
  same plates.
- `Recognition` (`Recognition.dfy`) holds the retry loop as a method. Its
  result, call count and sleep count are tied to `Expected`, a specification
  function defined through the first successful attempt. Lemmas state the
  retry discipline in terms of `Expected`.

The external service is a parameter. `service: nat -> Outcome` gives the
outcome of each attempt number (from 0): `Throws` for any `Exception` raised
by image decoding, the request or reading the reply text, or `Reply(text)`. The
method reports how many attempts it made (`calls`) and how many backoff
pauses it took (`sleeps`). Each pause lasts `BackoffSeconds` (30).

A malformed image is not fatal: `PIL.Image.open` (app.py:17) is inside the
`try`, so a decode failure is a `Throws` outcome, retried and followed by a
pause like any other failure.

## Model

| member | source | states |
|---|---|---|
| Text.IsWhitespace | app.py:19 | defines the characters `strip()` removes at either end (here and at app.py:22): space and the ASCII control characters 9-13 and 28-31 |
| Text.IsAlnum | app.py:20 | defines `c.isalnum()`: an ASCII letter or digit |
| Text.TrimStart | app.py:19 | the left half of `strip()`: the result is empty or starts with a non-whitespace character |
| Text.TrimEnd | app.py:19 | the right half of `strip()`: the result is a prefix of the input that is empty or ends with a non-whitespace character |
| Text.Strip | app.py:19 | the result has no whitespace at either end, and a string already in that form is returned unchanged |
| Text.TrimStartRemovesLeading | app.py:19 | stripping the front removes exactly a run of leading whitespace and keeps the rest as a suffix |
| Text.TrimEndRemovesTrailing | app.py:19 | stripping the back removes only whitespace after the kept prefix |
| Text.StripInfix | app.py:19 | `strip()` keeps one contiguous slice of its input, and everything cut from either side is whitespace |
| Text.HasAlnum | app.py:20 | defines `any(c.isalnum() for c in text)`: some position of the text holds an ASCII letter or digit |
| Text.StripChars | app.py:19 | every character of the stripped text comes from the input, and every non-whitespace character of the input survives |
| Text.Join | app.py:69 | defines `"\n".join(xs)`: empty for no pieces, the piece itself for one, otherwise the first piece, a `'\n'` and the join of the rest |
| Text.FirstBreak | app.py:22 | finds a line break in the text with no line break before it |
| Text.Split | app.py:22 | `split('\n')` yields at least one piece, no piece holds a line break, and joining the pieces with line breaks gives the input back |
| Text.SplitJoin | app.py:69 | splitting the `"\n".join` of one or more line-free pieces gives those pieces back |
| Text.SplitPrefix | app.py:22 | splitting `a + "\n" + b` (with `a` line-free) gives `a` followed by the pieces of `b` |
| Text.JoinCons | app.py:69 | joining a plate in front of a non-empty list adds that plate and one line break in front of the payload |
| Text.JoinEnds | app.py:69 | the joined payload starts with the first plate and ends with the last |
| Text.JoinStripped | app.py:69 | the join of non-empty stripped plates has no whitespace at either end |
| Text.JoinContains | app.py:69 | every character of every plate occurs in the export payload |
| Normalizer.Accepts | app.py:19-20 | defines the validation `text and any(c.isalnum() for c in text)` on the stripped reply |
| Normalizer.CleanLines | app.py:22 | the comprehension keeps at most as many entries as there are lines, each non-empty and stripped |
| Normalizer.CleanLinesLineFree | app.py:22 | cleaning lines that hold no line break yields well-formed plates: non-empty, stripped, one line |
| Normalizer.Plates | app.py:19-22 | every plate of a reply is non-empty, stripped and holds no line break |
| Normalizer.CleanLinesAppend | app.py:22 | cleaning keeps line order: it distributes over concatenation of line lists |
| Normalizer.CleanLinesMembers | app.py:22 | a string is a cleaned plate exactly when it is non-empty and is the strip of some line (both directions) |
| Normalizer.CleanLinesOfPlates | app.py:22 | a list of well-formed plates is left unchanged by cleaning |
| Normalizer.StripKeepsAlnum | app.py:20-22 | stripping never removes the letter or digit that validation found |
| Normalizer.CleanLinesKeepAlnum | app.py:22 | a line holding a letter or digit gives a plate holding one |
| Normalizer.SplitKeepsAlnum | app.py:22 | a text holding a letter or digit has a line holding one |
| Normalizer.AcceptedHasPlates | app.py:19-23 | an accepted reply yields a non-empty plate list with a plate holding a letter or digit, so `return plates if plates else None` never returns None |
| Normalizer.ExportRoundTrip | app.py:69 | normalizing the `"\n".join` payload of any well-formed plate list gives the same list |
| Normalizer.ExportAccepted | app.py:69 | the export payload passes validation exactly when some plate holds a letter or digit |
| Normalizer.ResultRoundTrip | app.py:19-22 | the plates of an accepted reply survive export: the payload is accepted again and normalizes to the same plates |
| Recognition.DefaultRetries | app.py:14 | defines the default `retries=3` |
| Recognition.BackoffSeconds | app.py:30 | defines the 30-second pause of `time.sleep(30)` |
| Recognition.Succeeds | app.py:18-23 | defines the attempt that ends the loop: no exception, and a reply that passes the validation at app.py:20 |
| Recognition.Budget | app.py:15 | `range(retries)` allows `retries` attempts when positive, none otherwise |
| Recognition.Expected | app.py:15-33 | defines the reference run: with a first success at attempt `k` within the budget, the plates of that reply after `k + 1` calls and `k` pauses; otherwise None after using the whole budget `n`, with `n - 1` pauses (0 when `n` is 0) |
| Recognition.FirstSuccess | app.py:15-23 | finds the least attempt below the bound whose reply is accepted; it is None exactly when no attempt below the bound succeeds |
| Recognition.ExtractTextFromImage | app.py:14-33 | the loop's result, call count and sleep count equal `Expected`; it makes at most `retries` calls and any returned list is non-empty well-formed plates |
| Recognition.NoAttemptsWithoutBudget | app.py:15-33 | with `retries <= 0` no call is made, no pause taken, and the result is None |
| Recognition.CallsAndSleeps | app.py:26-30 | at most `retries` calls, and exactly one pause between consecutive attempts (`sleeps == calls - 1`, or 0 when no call is made) |
| Recognition.FirstSuccessWins | app.py:15-23 | a result is returned exactly when some attempt within the budget succeeds; it is then the plates of the last attempt made, which is the first that succeeded |
| Recognition.Exhaustion | app.py:26-33 | when all `retries` attempts fail the result is None after exactly `retries` calls and `retries - 1` pauses |
| Recognition.ResultWellFormed | app.py:19-23 | a returned plate list is non-empty and each plate is non-empty, stripped and one line |
| Recognition.FirstSuccessAgrees | app.py:15-23 | services that agree on which attempts succeed below a bound have the same first success |
| Recognition.FirstSuccessPrefix | app.py:15-23 | once an attempt below `m` succeeds, a larger budget does not change the first success |
| Recognition.SameFirstSuccess | app.py:15-23 | services that agree up to and including the first success have the same first success |
| Recognition.NoLaterAttempts | app.py:15-23 | the run depends only on the outcomes of the attempts it actually made, so nothing after the accepted attempt is consulted |
| Recognition.RejectedReplyIsFailure | app.py:24-26 | a reply that fails validation leads to exactly the same run as an exception at that attempt |
| Recognition.DefaultBudget | app.py:14 | with the default `retries=3` a run makes at most 3 calls and waits at most 60 seconds |
| Recognition.ResultExportRoundTrip | app.py:69 | a returned plate list normalizes back to itself from its download payload |

## Left out

- The Streamlit page (`main`, every `st.*` call, the uploader, the button, the download widget and the footer, app.py:36-97) is not modelled. The `import` at app.py:77 is indented by 3 spaces, which matches no open block, so Python raises `IndentationError` when compiling `app.py` and the file cannot be loaded as shipped; the model describes `extract_text_from_image` as written.
- Exceptions that derive only from `BaseException` (`KeyboardInterrupt`, `SystemExit`, `GeneratorExit`) are not modelled. `except Exception` at app.py:26 does not catch them, so they leave `extract_text_from_image` instead of counting as a failed attempt.
- Status messages (`st.error` / `st.info`, app.py:27-32) are not modelled. They only inform the user and do not affect control flow.
- Client construction and API-key configuration (app.py:9-12) are not modelled. They are foreign library calls.
- Image decoding (app.py:17), `generate_content` (app.py:18) and reading `response.text` are not modelled separately. They are folded into the `service` parameter: any `Exception` they raise is a `Throws` outcome.
- `time.sleep(30)` is not modelled as real time. It appears only as the `sleeps` count; each pause lasts `BackoffSeconds`.
- Text.IsWhitespace: covers only the ASCII characters Python's `str.isspace()` accepts; Unicode spaces such as U+00A0 and U+2028 are not included.
- Text.IsAlnum: covers only ASCII letters and digits; Python's `str.isalnum()` also accepts non-ASCII letters and digits (Vietnamese `Đ`, for example).
