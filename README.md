# NIYAMR AI compliance checker — Dafny model

The system checks an uploaded PDF against a list of plain-language rules.
The web page (`Home`) lets the user pick a PDF and edit a list of rule
slots. The list starts with three blank inputs. Quick rules fill the first
blank slot, and a removed slot is replaced by a blank one at the end. On
submit, the page sends the PDF and the non-blank rules to the server.

The server's `checkDocument` handler does the following:

- reads the rule list from the request and requires an uploaded file;
- extracts the PDF's text;
- for each rule in order, asks the language model for a JSON verdict;
- trims the reply, strips ```` ```json ```` / ```` ``` ```` fences and parses it;
- substitutes a fixed "fail" verdict when the reply does not parse;
- answers 200 with the list of verdicts, 400 when no file was uploaded, or
  500 when anything throws.

Details of the handler the model keeps:

- the fallback's reasoning is "Invalid JSON returned by Gemini";
- the fence replacement removes every ```` ```json ```` and ```` ``` ````
  anywhere in the reply, not only an enclosing pair;
- a parsed verdict is kept as it is, and its `status` and `confidence` are
  not checked.

Back on the page, the verdicts are shown with an "N of M rules passed"
counter.

Modules:

- `Text` (`text.dfy`): JavaScript's `String.prototype.trim` and the
  blank-rule test `r.trim() === ""`.
- `JsValue` (`js_value.dfy`): the values `JSON.parse` yields, JavaScript
  truthiness, and `${x}` string conversion. That conversion throws for an
  object with its own `toString` key, and for an array holding one.
- `Fences` (`fences.dfy`): the global regex replacement `/```json|```/g` →
  `""`, and the full reply clean-up (trim, strip, trim).
- `CheckController` (`check_controller.dfy`): the prompt, the fallback
  verdict, one rule's evaluation, the batch loop (`EvaluateRules`), and the
  handler (`CheckDocument`). The loop is proved against the function
  `BatchResults`, and the handler against the function `Handle`. Lemmas
  state the prompt layout, the fallback record and the outcomes of
  `Handle`.
- `Home` (`home.dfy`): the rule-list operations as functions, and the page
  state as the class `HomePage`, whose methods are the event handlers.
- `EndToEnd` (`end_to_end.dfy`): what the page makes of each answer the
  handler can give.
- `Wrappers` (`wrappers.dfy`): `Option`.

The PDF library, the model client and `JSON.parse` are function-typed
parameters. The model client and `JSON.parse` return `None` where the real
ones throw. The model client also takes the number of the call within the
request, counting from 0, so each call gets its own reply or throw, and two
rules with the same text may get different verdicts. The i-th rule goes out
as the i-th call. The PDF library returns `ExtractionThrew` where it throws,
and otherwise an extraction whose text may be missing.

## Model

| member | source | states |
|---|---|---|
| Text.TrimStartSuffix | backend/controllers/checkController.js:51 | trimming the start keeps a suffix that does not start with whitespace, and everything dropped is whitespace |
| Text.TrimEndPrefix | backend/controllers/checkController.js:51 | trimming the end keeps a prefix that does not end with whitespace, and everything dropped is whitespace |
| Text.TrimIsCore | backend/controllers/checkController.js:51 | `trim()` returns a slice of its input with only whitespace on both sides, and the slice neither starts nor ends with whitespace |
| Text.TrimUnchanged | backend/controllers/checkController.js:54 | a string that neither starts nor ends with whitespace is returned unchanged by `trim()` |
| Text.TrimIdempotent | backend/controllers/checkController.js:51-54 | trimming an already trimmed reply changes nothing |
| Text.BlankIffAllWhitespace | frontend/src/pages/Home.jsx:37 | `r.trim() === ""` holds exactly when every character of `r` is whitespace |
| JsValue.ToString | backend/controllers/checkController.js:33 | a string rule is inserted into the prompt verbatim |
| JsValue.ToStringThrowsIff | backend/controllers/checkController.js:33 | `${rule}` throws if and only if the rule is, or is an array holding at any depth, an object with its own `toString` key |
| JsValue.NatToDecimal | backend/controllers/checkController.js:33 | a non-negative integer rule below 10^21 inserted into the prompt is written as a non-empty string of decimal digits with no leading zero |
| JsValue.NatToDecimalRoundTrip | backend/controllers/checkController.js:33 | the decimal text of a number reads back as that number |
| Fences.StripFences | backend/controllers/checkController.js:54 | stripping fences never lengthens the reply |
| Fences.StripFencesNoFence | backend/controllers/checkController.js:54 | no triple backtick is left after the replacement |
| Fences.StripFencesFixpoint | backend/controllers/checkController.js:54 | the replacement changes the text if and only if the text holds a triple backtick |
| Fences.StripFencesIdempotent | backend/controllers/checkController.js:54 | applying the replacement twice equals applying it once |
| Fences.StripFencesBacktickFreePrefix | backend/controllers/checkController.js:54 | a backtick-free prefix passes through the replacement unchanged |
| Fences.StripFencesJsonFenced | backend/controllers/checkController.js:54 | a backtick-free body between ```` ```json ```` and ```` ``` ```` comes out as exactly that body |
| Fences.CleanFenceFree | backend/controllers/checkController.js:51-54 | the text handed to `JSON.parse` holds no triple backtick |
| Fences.CleanIdempotent | backend/controllers/checkController.js:51-54 | cleaning an already cleaned reply changes nothing |
| Fences.CleanBacktickFree | backend/controllers/checkController.js:51-54 | a reply without backticks is only trimmed |
| Fences.CleanJsonFenced | backend/controllers/checkController.js:51-54 | a ```` ```json ```` fenced reply around a backtick-free body cleans to the trimmed body |
| CheckController.SentRulesVisited | backend/controllers/checkController.js:15-33 | when the `rules` field parses back to the array of strings the page sends, the loop visits exactly those rules in order, and each converts without throwing to its own text |
| CheckController.PromptLayout | backend/controllers/checkController.js:29-46 | the prompt is the fixed header, then the rule text verbatim, then the fixed JSON-format block, then the whole document text and a final newline |
| CheckController.Fallback | backend/controllers/checkController.js:61-67 | the fallback record has exactly the five keys, echoes the rule, and has status "fail" and confidence 10 |
| CheckController.EvaluateRuleThrowsIff | backend/controllers/checkController.js:28-48 | one rule's evaluation throws if and only if its prompt cannot be built (an object with its own `toString` key) or the model call made for it, with its prompt, throws |
| CheckController.EvaluateRuleParsed | backend/controllers/checkController.js:48-58 | a reply whose cleaned text parses becomes the verdict verbatim, whatever fields it has |
| CheckController.EvaluateRuleFallback | backend/controllers/checkController.js:56-70 | a reply whose cleaned text does not parse yields exactly the fallback record |
| CheckController.BatchResultsPerRule | backend/controllers/checkController.js:26-71 | the batch succeeds if and only if no rule's evaluation throws; then it holds one verdict per rule, in rule order, the i-th from the request's i-th model call |
| CheckController.HandleReplyShapes | backend/controllers/checkController.js:12-85 | every answer is the 400 answer, the 500 answer, or a 200 answer carrying a `results` array |
| CheckController.EvaluateRules | backend/controllers/checkController.js:26-71 | the loop returns a list if and only if every rule's evaluation succeeds, with one verdict per rule, in order, the i-th rule sent as the i-th model call |
| CheckController.CheckDocument | backend/controllers/checkController.js:12-85 | the handler's early returns and `catch` give exactly the answer `Handle` specifies |
| CheckController.MalformedRulesFail | backend/controllers/checkController.js:15-17 | a `rules` field that does not parse gives 500, even without a file |
| CheckController.MissingFileRejected | backend/controllers/checkController.js:15-17 | readable rules and no file give 400 "No PDF uploaded" |
| CheckController.AbsentRulesGiveNoResults | backend/controllers/checkController.js:15-28 | no `rules` field and an extractable file give 200 with an empty result list |
| CheckController.HandleOutcomes | backend/controllers/checkController.js:12-85 | every request ends as 200 with one verdict per rule in order (after the temporary file is removed), as 400, or as 500; a throwing extraction gives 500 |
| CheckController.ModelFailureFailsRequest | backend/controllers/checkController.js:28-83 | one rule whose evaluation throws fails the whole request with 500, and the verdicts gathered so far are lost |
| CheckController.HandleSucceeds | backend/controllers/checkController.js:15-76 | readable rules, a file whose text extracts, an iterable rule list and no throwing rule give 200 with the temporary file removed, the converse of `HandleOutcomes` |
| CheckController.NonIterableRulesFail | backend/controllers/checkController.js:28 | with a file whose text extracts, a parsed `rules` value that `for…of` cannot iterate (neither an array nor a string) gives 500; without a file the answer is 400 |
| CheckController.UnconvertibleRuleFailsRequest | backend/controllers/checkController.js:28-83 | a rule holding an object with its own `toString` key fails the whole request with 500 |
| Home.FirstBlank | frontend/src/pages/Home.jsx:37 | `findIndex` returns the first blank slot, or -1 exactly when no slot is blank |
| Home.WithPredefinedSlots | frontend/src/pages/Home.jsx:36-43 | a quick rule fills the first blank slot and changes no other; with no blank slot it is appended |
| Home.WithoutRuleSlots | frontend/src/pages/Home.jsx:45-48 | removing a slot keeps the length: earlier slots stay, later ones shift left, and the last slot becomes blank |
| Home.ActiveRules | frontend/src/pages/Home.jsx:56 | the filtered list is never longer than the rule list |
| Home.ActiveRulesAppend | frontend/src/pages/Home.jsx:56 | filtering distributes over concatenation, so active rules keep their relative order |
| Home.ActiveRulesNonBlank | frontend/src/pages/Home.jsx:56 | no active rule is blank |
| Home.ActiveRulesMembership | frontend/src/pages/Home.jsx:56 | a string is an active rule if and only if it is a non-blank entry of the list |
| Home.ActiveRulesFixpoint | frontend/src/pages/Home.jsx:56 | filtering leaves the list unchanged if and only if no entry is blank |
| Home.ActiveRulesSingleton | frontend/src/pages/Home.jsx:56 | a one-entry list keeps its entry exactly when it is not blank |
| Home.InitialRulesInactive | frontend/src/pages/Home.jsx:50-57 | the three starting inputs, also restored by "Clear", send no rule, so submitting alerts |
| Home.PredefinedRulesNonBlank | frontend/src/pages/Home.jsx:13-19 | none of the five quick rules is blank |
| Home.AddPredefinedActivates | frontend/src/pages/Home.jsx:36-43 | adding a non-blank quick rule inserts exactly that rule into the active rules at one position, leaving the others in order |
| Home.RemoveRuleActive | frontend/src/pages/Home.jsx:45-48 | removing a slot removes its rule, if any, from the active rules and keeps the others in order |
| Home.PassCount | frontend/src/pages/Home.jsx:299 | the pass counter never exceeds the number of results |
| Home.PassCountAll | frontend/src/pages/Home.jsx:299 | the counter equals the number of results if and only if every result passed |
| Home.ReadResults | frontend/src/pages/Home.jsx:73 | reading `data.results` throws if and only if the answer is `null`; a `results` array is taken as it is |
| Home.HomePage.constructor | frontend/src/pages/Home.jsx:4-9 | no file, three blank inputs, no results, not loading, upload tab |
| Home.HomePage.HandlePdfUpload | frontend/src/pages/Home.jsx:21-28 | a file of type "application/pdf" is taken and the preview is shown; any other choice changes nothing |
| Home.HomePage.RemovePdf | frontend/src/pages/Home.jsx:130-134 | the file and its URL are dropped and the upload tab is shown |
| Home.HomePage.ShowTab | frontend/src/pages/Home.jsx:230-240 | the tab buttons switch to the chosen tab, preview or results (no button selects the upload tab) |
| Home.HomePage.HandleRuleChange | frontend/src/pages/Home.jsx:30-34 | one slot is overwritten; the length and every other slot stay |
| Home.HomePage.AddPredefinedRule | frontend/src/pages/Home.jsx:36-43 | the new list is `WithPredefined` of the old, and at least three inputs remain |
| Home.HomePage.RemoveRule | frontend/src/pages/Home.jsx:45-48 | the new list is `WithoutRule` of the old, and at least three inputs remain |
| Home.HomePage.ClearAllRules | frontend/src/pages/Home.jsx:50-52 | the list is reset to three blank inputs |
| Home.HomePage.HandleSubmit | frontend/src/pages/Home.jsx:54-64 | with no file or no active rule it only alerts and changes nothing; otherwise it sets loading, clears results and sends the file with a non-empty list of non-blank rules |
| Home.HomePage.ReceiveReply | frontend/src/pages/Home.jsx:72-80 | a readable answer replaces the results and shows the results tab; otherwise it alerts "Something went wrong"; loading always ends |
| EndToEnd.PageReadsEveryReply | frontend/src/pages/Home.jsx:72-74 | the page can read every answer the handler gives: a 200 answer's verdicts in order, and an empty list for 400 and 500 |
| EndToEnd.FallbackNeverPasses | backend/controllers/checkController.js:61-67 | the fallback verdict is never counted as passed |
| EndToEnd.NoPassNoCount | frontend/src/pages/Home.jsx:299 | results with no passing entry give a counter of 0 |
| EndToEnd.UnparsableRepliesNeverPass | backend/controllers/checkController.js:56-76 | when no cleaned reply the model gives parses, a 200 answer holds one entry per rule, each that rule's fallback record, and the pass counter is 0 |

## Left out

- File handling is not modelled. This covers multer storage, `fs.readFileSync` and `fs.unlinkSync` (lines 20 and 74 of the controller). The `cleanedUp` flag of a reply only records that the handler reached the unlink.
- The PDF library, the Gemini client (`generateContent`, `response.text()`) and `JSON.parse` are parameters, not models. The PDF library may return anything or throw on each file. `JSON.parse` may return anything or throw on each text. The Gemini client may return anything or throw on each call; its answer depends on the call's number in the request and its prompt, so repeated prompts need not get the same reply.
- The `details: error.message` field of the 500 answer is left out, because the message text comes from whichever library threw.
- `console.log` and `console.error` are left out.
- On the page, `FormData`, `JSON.stringify`, `fetch` and `res.json()` are left out; `HandleSubmit` returns the request it would send. `URL.createObjectURL` is a parameter of `HandlePdfUpload`. Rendering, `alert` (returned as a value), `toFixed`, the drag-and-drop text and the `fileInputRef` click are left out.
- `handleSubmit` is modelled as two methods split at the `await`: `HandleSubmit` and `ReceiveReply`. Interleaving with other handlers while the request is pending is not modelled. Neither is the button's `disabled={loading || !pdf}` (Home.jsx lines 211 and 274).
- JSON numbers are integers. Floating-point values are not modelled, and neither is their decimal text when a number rule is inserted into the prompt.
- JsValue.NatToDecimal: numbers are unbounded integers, so JavaScript's loss of precision above 2^53 in `JSON.parse` and its exponent form ("1e+21") for integers from 10^21 up are not modelled; every digit is written. A negative rule is written with a leading "-" by `IntToDecimal`.
- Strings are sequences of Unicode scalar values rather than UTF-16 code units. Object keys are a map, so key order is not modelled.
- Home.PassCount: a `null` entry in the results makes `r.status` throw while rendering. The model instead counts it as not passed.
- Home.ReadResults: states the `null` and array cases only. For other answers, the function gives `[]`, as `data.results || []` does for an undefined or falsy field. A truthy non-array `results` is also taken as `[]`, where the page stores it as it is. For a number, a boolean or an object without a `length` field, `results.length > 0` is false and the page shows "No results yet", as it does for `[]` (Home.jsx lines 294 and 341-347). For a non-empty string, or an object with a positive `length`, `results.filter` throws while rendering (line 299).
