# ReportIQ upload controller and JSON clean-up, in Dafny

ReportIQ is a web application that explains a blood report. The user uploads a
PDF or an image, a backend sends it to a language model, and the browser shows
the explanation. This project models the two small pieces of logic in it:

* **`BloodReportAnalyzer`** (static/js/script.js). This is the browser-side
  controller. It validates the chosen file, keeps the selected file, switches
  between the `home`, `loading` and `explain` pages, posts the file to
  `/explain`, and renders the answer or raises an alert. It is modelled as the
  Dafny class `Analyzer.BloodReportAnalyzer`, whose fields are the
  controller's fields plus the parts of the page it writes:
  * which pages carry `active`;
  * the `drag-over` flag;
  * whether each of the three upload sections is displayed;
  * the texts it sets;
  * the alerts it appends;
  * the files it posts.

  Each method is proved to produce the state given by a function on a
  `Snapshot` of those fields. Lemmas about those functions state what the
  controller promises, including that exactly one page is active after any
  sequence of events (`Analyzer.Run`, `Analyzer.RunKeepsConsistent`).
* **`extract_json`** (explainer.py). This cleans a model's reply before it is
  parsed as JSON, in three stages:
  1. it keeps the text from the first `{` to the last `}` (`re.search`);
  2. it deletes commas and whitespace right before `}` or `]` (`re.sub`);
  3. it strips surrounding whitespace (`str.strip`).

  Each regular expression is written out as a scanning function over
  `string`. `Explainer.IsWs` is the set of characters for which Python's
  `str.isspace()` holds. That is also the set `\s` matches in a `str` pattern.

Files: `wrappers.dfy` (an `Option` type), `explainer.dfy` (module
`Explainer`), `upload_rules.dfy` (module `UploadRules`: the controller's
values, its file checks, the icon choice and the size label) and
`analyzer.dfy` (module `Analyzer`: the snapshot functions, their lemmas and
the class).

Two facts of the code that are easy to misread:
* The selected file is never cleared after a submission or on going back
  home. Only `removeFile` clears it (static/js/script.js:110-114).
* The size limit is inclusive. A file of exactly 10 MiB is accepted, although
  the message says "less than 10MB" (static/js/script.js:86-89).

## Model

| member | source | states |
|---|---|---|
| `Explainer.LastClose` | explainer.py:8 | the greedy `.*\}`: the result is the last `}` in the range, or there is none |
| `Explainer.Search` | explainer.py:8 | `re.search` of `\{.*\}` under DOTALL: the match found is a `{`…`}` span, no span starts earlier, none from that start ends later; no result means no span at all |
| `Explainer.Narrow` | explainer.py:8-10 | with a `{` that has a `}` after it, stage 1 yields text that starts with `{` and ends with `}`; without one, the input unchanged |
| `Explainer.NarrowToOuterBraces` | explainer.py:8-10 | if the first `{` comes before the last `}`, stage 1 yields exactly the text from the first `{` through the last `}` |
| `Explainer.SkipWs` | explainer.py:11 | `\s*`: the first non-whitespace index, with only whitespace skipped |
| `Explainer.MatchAt` | explainer.py:11 | an attempt of `,\s*([}\]])` at one position succeeds exactly when a comma, only whitespace and then `}` or `]` follow there |
| `Explainer.RemoveFrom` | explainer.py:11 | stage 2 never lengthens the text |
| `Explainer.NextMatch` | explainer.py:11 | the leftmost match at or after a position, or proof that none is left |
| `Explainer.RemoveFromIsSub` | explainer.py:11 | the scan equals `re.sub`'s search loop: each non-overlapping match, taken left to right, becomes its bracket; all other text is copied |
| `Explainer.RemoveFromDeletesOnly` | explainer.py:11 | stage 2 deletes only commas and whitespace and keeps every other character in order |
| `Explainer.RemoveTrailingCommasDeletesOnly` | explainer.py:11 | the same for the whole input |
| `Explainer.DeletesOnlyKeepsSignificant` | explainer.py:11 | hence the characters other than commas and whitespace, each `}` and `]` among them, are the same before and after |
| `Explainer.RemoveTrailingCommasUnchangedIff` | explainer.py:11 | stage 2 leaves the text unchanged if and only if it contains no match |
| `Explainer.RemoveTrailingCommasNotIdempotent` | explainer.py:11 | one pass turns `,,}` into `,}`, which still holds a match and becomes `}` |
| `Explainer.TrimEnd` | explainer.py:12 | `strip`'s right end: what it drops is whitespace, and the last character kept is not |
| `Explainer.Strip` | explainer.py:12 | the stripped text has no whitespace at either end |
| `Explainer.StripTrimsWhitespaceOnly` | explainer.py:12 | `strip` keeps one contiguous part of its input and drops only whitespace before and after it |
| `Explainer.StripWithoutEdgeWs` | explainer.py:12 | text without whitespace at its ends is left unchanged |
| `Explainer.ExtractJson` | explainer.py:7-12 | the result has no leading or trailing whitespace |
| `Explainer.ExtractJsonKeepsBraces` | explainer.py:7-12 | with a `{` that has a `}` after it, the result starts with `{`, ends with `}` and is just stage 2's output |
| `Explainer.ExtractJsonWithoutBraces` | explainer.py:7-12 | without such a span, the input goes to stage 2 as it is |
| `UploadRules.Rejection` | static/js/script.js:79-89 | a file is refused exactly when its type is outside the allow-list or it is over 10 MiB; the reason is one of the two messages |
| `UploadRules.RejectionOrderAndLimit` | static/js/script.js:79-89 | wrong type and oversized gives only the type message; exactly 10485760 bytes passes; one byte more fails with the size message |
| `UploadRules.AllowedTypesHaveSpecificIcon` | static/js/script.js:199-206 | every accepted type gets the PDF icon (only `application/pdf`) or the image icon, never the fallback |
| `UploadRules.IconFor` | static/js/script.js:199-206 | the PDF icon exactly for `application/pdf`, the image icon exactly for a non-PDF `image/` type, and never the fallback for an accepted type |
| `UploadRules.Hundredths` | static/js/script.js:98 | `toFixed(2)` of size / 2^20: the integer n with n/100 nearest to it, the larger on a tie |
| `UploadRules.HundredthsUnique` | static/js/script.js:98 | that rounding bound admits only this n |
| `UploadRules.DigitChar` | static/js/script.js:98 | the character of a decimal digit, whose value is that digit |
| `UploadRules.DecimalString` | static/js/script.js:98 | a number prints as decimal digits with no leading zero |
| `UploadRules.DecimalRoundTrip` | static/js/script.js:98 | reading those digits back gives the number |
| `UploadRules.ToFixed2` | static/js/script.js:98 | `toFixed(2)` of size / 2^20: an integer part without leading zeros, a point and two decimals, whose digits read without the point give the rounded hundredths |
| `UploadRules.MegabytesLabel` | static/js/script.js:98 | the size text is digits, a point, two digits and then " MB" |
| `UploadRules.MegabytesLabelReadsBack` | static/js/script.js:98 | the size text is digits, a point, two digits and " MB", and its digits read back as the rounded hundredths of a MiB |
| `UploadRules.AcceptedLabelAtMostTen` | static/js/script.js:86-98 | an accepted file is never shown as more than 10.00 MB |
| `Analyzer.ProcessedKeepsConsistent` | static/js/script.js:78-93 | processing a file keeps the invariant (one active page, only acceptable files selected, the layout matches the selection) |
| `Analyzer.StepKeepsConsistent` | static/js/script.js:32-47 | every event the controller listens to keeps that invariant |
| `Analyzer.RunKeepsConsistent` | static/js/script.js:32-47 | so does any sequence of events |
| `Analyzer.ExactlyOnePageActive` | static/js/script.js:158-166 | from start-up on, exactly one page is active at all times, and it is the current page |
| `Analyzer.ProcessedOutcome` | static/js/script.js:78-93 | a refused file changes nothing but the log, which gains one error alert: the type message if the type is wrong, else the size message. An accepted file is selected and shown with its name and size label, the page stays, and nothing else changes |
| `Analyzer.ExtraFilesIgnored` | static/js/script.js:49-76 | only the first file of a picked or dropped list is processed; an empty list changes nothing |
| `Analyzer.RemoveUndoesSelect` | static/js/script.js:91-114 | selecting an acceptable file and then removing it restores the empty layout it started from; only the hidden name and size texts keep the removed file's values, and the input value is reset to empty (which it already is in every reachable state) |
| `Analyzer.RemovedKeepsPage` | static/js/script.js:110-114 | `removeFile` clears the selection and the input, shows only the upload section and keeps the page |
| `Analyzer.AnalyzeWithoutFile` | static/js/script.js:116-120 | with no file, `analyzeFile` adds the "Please select a file first" alert and changes nothing else: no request, no page change |
| `Analyzer.AnalyzeWithFile` | static/js/script.js:116-151 | with a file, exactly that file is posted. A failure leads home with "Something went wrong". A truthy `error` leads home with that message. Anything else shows the report page titled "Report: " + filename. The selection stays |
| `Analyzer.EmptyErrorIsReport` | static/js/script.js:135-145 | an empty `error` is falsy and is rendered as a report |
| `Analyzer.GoHomeKeepsSelection` | static/js/script.js:154-156 | `goToHome` activates only the home page and keeps the selected file |
| `Analyzer.DragFlag` | static/js/script.js:56-76 | dragover sets the flag; dragleave clears it only when the cursor leaves the upload area; drop always clears it |
| `Analyzer.LateResponseStillShown` | static/js/script.js:116-166 | nothing cancels a request: its response, arriving after the user went home, still opens the report page |
| `Analyzer.BloodReportAnalyzer.constructor` | static/js/script.js:2-7 | no file selected, home page current and the only one active, drag flag off |
| `Analyzer.BloodReportAnalyzer.HandleFileSelect` | static/js/script.js:49-54 | processes the first picked file, if any; keeps the invariant |
| `Analyzer.BloodReportAnalyzer.HandleDragOver` | static/js/script.js:56-59 | sets the drag-over flag and nothing else |
| `Analyzer.BloodReportAnalyzer.HandleDragLeave` | static/js/script.js:61-66 | clears the flag unless the related target is inside the upload area |
| `Analyzer.BloodReportAnalyzer.HandleDrop` | static/js/script.js:68-76 | clears the flag, then processes the first dropped file, if any |
| `Analyzer.BloodReportAnalyzer.ProcessFile` | static/js/script.js:78-93 | type check, then size check, each refusing with its alert; otherwise selects the file and updates the display |
| `Analyzer.BloodReportAnalyzer.UpdateFileDisplay` | static/js/script.js:95-108 | with a file: its name and size label are shown, the upload section hidden, the other two shown; without: the reverse |
| `Analyzer.BloodReportAnalyzer.RemoveFile` | static/js/script.js:110-114 | clears the selection and the input value, then updates the display |
| `Analyzer.BloodReportAnalyzer.SubmitSelected` | static/js/script.js:116-131 | reports whether a request was posted: without a file, one alert; with one, the loading page and the file posted |
| `Analyzer.BloodReportAnalyzer.HandleResponse` | static/js/script.js:133-151 | handles the answer as `Analyzer.AnalyzeWithFile` describes, keeping the invariant |
| `Analyzer.BloodReportAnalyzer.AnalyzeFile` | static/js/script.js:116-152 | the two halves in sequence; the response is not consulted when no request was made |
| `Analyzer.BloodReportAnalyzer.GoToHome` | static/js/script.js:154-156 | shows the home page and changes nothing else |
| `Analyzer.BloodReportAnalyzer.ShowPage` | static/js/script.js:158-166 | after the loop over all pages, exactly the named page is active and it becomes the current page |
| `Analyzer.BloodReportAnalyzer.ShowAlert` | static/js/script.js:168-193 | appends the message with its kind to the alert log and changes nothing else |

## Left out

- `fetch`, `FormData` and `response.json()` (static/js/script.js:124-133) are network and decoding calls. Their outcome is the input `UploadRules.Response`: either a thrown failure, or an object whose `error`, `filename` and `explanation` may each be missing. Properties that are not strings are not modelled.
- The interleaving of events while a request is pending is modelled by splitting `analyzeFile` into `SubmitSelected` and `HandleResponse`. It has two `await`s, on `fetch` and on `response.json()` (static/js/script.js:128, 133). Both become the one `Respond` command of `Analyzer.Step`, because the controller changes nothing between them. The ghost counter `inFlight` tracks pending requests; it is not in the source.
- DOM lookups, CSS text, `window.scrollTo`, `console.error` and the 3-second timed removal of alerts are left out. The alert log keeps every alert ever shown, with its message and kind.
- showPage finds its element as `${pageId}-page`, while the script names the report page `results-page` three times (static/js/script.js:12, 234, 241) and never `explain-page`. The HTML template is not part of this model, and the model assumes every page name has its element. If `explain-page` were missing, `showPage("explain")` (static/js/script.js:145) would throw after clearing every page. That throw happens inside the `try`, so the `catch` (static/js/script.js:147-150) would turn every successful reply into "Something went wrong" on the home page. That path is not modelled.
- `Analyzer.BloodReportAnalyzer.constructor`: the script sets only `selectedFile` and `currentPage`. The initial `active` class and the initial section display come from the template, which is not part of this model. The model assumes home is active and only the upload section is shown.
- The file input's value is written by the browser when a file is picked. Only `removeFile`'s reset of it to empty is modelled, so the field `inputValue` only records that reset and is empty in every reachable state.
- The choose-file and change-file buttons only open the browser's file picker. The document-wide `preventDefault` on dragover and drop only suppresses the browser's default. Both are left out (static/js/script.js:34-35, 45-46).
- getFileIcon's SVG strings are left out. Only which of the three is chosen is modelled (`UploadRules.IconFor`). The PDF and fallback strings are identical, and nothing in the script calls getFileIcon.
- `toFixed` switches to exponent notation from 10^21 on. No displayed size comes near that, so it is not modelled.
- `animateProgressBar`, the `MutationObserver` wiring and `delay` (static/js/script.js:195-197, 214-243) are left out. They are cosmetic timers over floating-point widths.
- `explain_func`, the environment and client setup in explainer.py, all of extract.py and all of app.py are left out. These are calls to a language-model API, file I/O and Flask routing.
