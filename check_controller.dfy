/** The server's `checkDocument` request handler: read the rule list, require
    an uploaded PDF, extract its text, ask the language model about each rule
    in turn, clean and parse each reply (or substitute the fixed fallback
    verdict), and answer with the list of verdicts.

    The PDF library, the model client and `JSON.parse` are parameters. The
    model client and `JSON.parse` return `None` where the real ones throw;
    the PDF library returns `ExtractionThrew`. */
module CheckController {
  import opened Wrappers
  import opened Text
  import opened JsValue
  import opened Fences

  type Bytes = seq<bv8>

  /** What the PDF library gives for an uploaded file: it throws, or it yields
      a result whose `text` may be missing. */
  datatype Extraction = ExtractionThrew | Extracted(text: Option<string>)

  /** An HTTP answer: status code, JSON body, and whether the handler reached
      the removal of the uploaded temporary file. */
  datatype Reply = Reply(status: nat, body: Value, cleanedUp: bool)

  type Parser = string -> Option<Value>
  type Extractor = Bytes -> Extraction
  /** `generate(n, prompt)` is the reply to the request's `n`-th model call
      (counting from 0), or `None` when that call throws. Each call is a
      separate network round trip, so two calls with the same prompt may get
      different replies. */
  type Generator = (nat, string) -> Option<string>

  const NoPdfReply: Reply := Reply(400, Object(map["error" := Str("No PDF uploaded")]), false)
  const FailedReply: Reply := Reply(500, Object(map["error" := Str("Processing failed")]), false)

  function SuccessReply(results: seq<Value>): Reply {
    Reply(200, Object(map["results" := Array(results)]), true)
  }

  /** `req.body.rules ? JSON.parse(req.body.rules) : []`: a missing or empty
      field means no rules; otherwise the field must parse. */
  function RulesValue(field: Option<string>, parse: Parser): Option<Value> {
    if field.None? || field.value == "" then Some(Array([])) else parse(field.value)
  }

  /** The elements `for (let rule of rules)` visits: an array's elements, or a
      string's characters as one-character strings. Any other value is not
      iterable and the loop throws. */
  function RuleList(rules: Value): Option<seq<Value>> {
    match rules
    case Array(items) => Some(items)
    case Str(s) => Some(seq(|s|, i requires 0 <= i < |s| => Str([s[i]])))
    case _ => None
  }

  /** `pdfData.text || ""`. */
  function PdfText(e: Extraction): string
    requires e.Extracted?
  {
    e.text.GetOr("")
  }

  const PromptHead: string :=
    "\nYou are an AI document auditor.\nAnalyze the document given below and evaluate it against the following rule:\n\nRule: \""
  const PromptMiddle: string :=
    "\"\n\nReturn STRICT VALID JSON in this format for my frontend to accept:\n{\n  \"rule\": \"...\",\n  \"status\": \"pass\" or \"fail\",\n  \"evidence\": \"...\",\n  \"reasoning\": \"...\",\n  \"confidence\": number (0-100)\n}\n\nDocument Text:\n"

  /** The prompt sent for one rule. */
  function Prompt(rule: string, pdfText: string): string {
    PromptHead + rule + PromptMiddle + pdfText + "\n"
  }

  /** The prompt holds the auditor framing, then the rule text verbatim
      inside quotes, then the required JSON shape, and ends with the whole
      document text, untruncated. */
  lemma PromptLayout(rule: string, pdfText: string)
    ensures var p := Prompt(rule, pdfText);
      && |p| == |PromptHead| + |rule| + |PromptMiddle| + |pdfText| + 1
      && p[..|PromptHead|] == PromptHead
      && p[|PromptHead|..|PromptHead| + |rule|] == rule
      && p[|PromptHead| + |rule|..|PromptHead| + |rule| + |PromptMiddle|] == PromptMiddle
      && p[|p| - |pdfText| - 1..] == pdfText + "\n"
  {
    ConcatLayout(Prompt(rule, pdfText), PromptHead, rule, PromptMiddle, pdfText + "\n");
  }

  lemma ConcatLayout(p: string, a: string, b: string, c: string, d: string)
    requires p == a + b + c + d
    ensures
      && |p| == |a| + |b| + |c| + |d|
      && p[..|a|] == a
      && p[|a|..|a| + |b|] == b
      && p[|a| + |b|..|a| + |b| + |c|] == c
      && p[|p| - |d|..] == d
  {
  }

  /** The record pushed for a rule whose reply does not parse. */
  function Fallback(rule: Value): (v: Value)
    ensures v.Object? && v.fields.Keys == {"rule", "status", "evidence", "reasoning", "confidence"}
    ensures v.fields["rule"] == rule && v.fields["status"] == Str("fail")
    ensures v.fields["confidence"] == Number(10)
  {
    Object(map[
      "rule" := rule,
      "status" := Str("fail"),
      "evidence" := Str("N/A"),
      "reasoning" := Str("Invalid JSON returned by Gemini"),
      "confidence" := Number(10)])
  }

  /** The verdict for one rule sent as model call number `call`, or `None`
      when building its prompt or that model call throws. */
  function EvaluateRule(rule: Value, call: nat, pdfText: string, generate: Generator, parse: Parser): Option<Value> {
    match ToString(rule)
    case None => None
    case Some(ruleText) =>
      match generate(call, Prompt(ruleText, pdfText))
      case None => None
      case Some(reply) =>
        match parse(Clean(reply))
        case Some(v) => Some(v)
        case None => Some(Fallback(rule))
  }

  /** The verdicts for all rules in order, the i-th from the i-th model call,
      or `None` as soon as one rule's evaluation throws. Written over the
      prefix already handled, as the loop builds it. */
  function BatchResults(rules: seq<Value>, pdfText: string, generate: Generator, parse: Parser): Option<seq<Value>>
    decreases |rules|
  {
    if rules == [] then Some([])
    else
      match BatchResults(rules[..|rules| - 1], pdfText, generate, parse)
      case None => None
      case Some(vs) =>
        match EvaluateRule(rules[|rules| - 1], |rules| - 1, pdfText, generate, parse)
        case None => None
        case Some(v) => Some(vs + [v])
  }

  /** The whole request, outcome by outcome. */
  function Handle(rulesField: Option<string>, upload: Option<Bytes>,
                  parse: Parser, extract: Extractor, generate: Generator): Reply
  {
    match RulesValue(rulesField, parse)
    case None => FailedReply
    case Some(rules) =>
      if upload.None? then NoPdfReply
      else
        var pdfData := extract(upload.value);
        if pdfData.ExtractionThrew? then FailedReply
        else
          match RuleList(rules)
          case None => FailedReply
          case Some(list) =>
            match BatchResults(list, PdfText(pdfData), generate, parse)
            case None => FailedReply
            case Some(results) => SuccessReply(results)
  }

  /** The handler answers with one of three shapes: the 400 answer, the 500
      answer, or a 200 answer carrying a `results` array. */
  lemma HandleReplyShapes(rulesField: Option<string>, upload: Option<Bytes>,
                          parse: Parser, extract: Extractor, generate: Generator)
    ensures var reply := Handle(rulesField, upload, parse, extract, generate);
      || reply == NoPdfReply
      || reply == FailedReply
      || (&& reply.body.Object? && "results" in reply.body.fields
          && reply.body.fields["results"].Array?
          && reply == SuccessReply(reply.body.fields["results"].items))
  {
  }

  /** Evaluating a rule throws exactly when the rule holds an object with its
      own `toString` key, so that its prompt cannot be built, or when the
      model call for its prompt throws. */
  lemma EvaluateRuleThrowsIff(rule: Value, call: nat, pdfText: string, generate: Generator, parse: Parser)
    ensures HoldsToStringKey(rule) ==> EvaluateRule(rule, call, pdfText, generate, parse).None?
    ensures !HoldsToStringKey(rule) ==>
              && ToString(rule).Some?
              && (EvaluateRule(rule, call, pdfText, generate, parse).None? <==>
                  generate(call, Prompt(ToString(rule).value, pdfText)).None?)
  {
    ToStringThrowsIff(rule);
  }

  /** A reply that parses is kept verbatim, whatever its status or confidence. */
  lemma EvaluateRuleParsed(rule: Value, call: nat, pdfText: string, generate: Generator, parse: Parser)
    requires ToString(rule).Some?
    requires generate(call, Prompt(ToString(rule).value, pdfText)).Some?
    requires parse(Clean(generate(call, Prompt(ToString(rule).value, pdfText)).value)).Some?
    ensures EvaluateRule(rule, call, pdfText, generate, parse)
         == parse(Clean(generate(call, Prompt(ToString(rule).value, pdfText)).value))
  {
  }

  /** A reply that does not parse yields exactly the fallback record. */
  lemma EvaluateRuleFallback(rule: Value, call: nat, pdfText: string, generate: Generator, parse: Parser)
    requires ToString(rule).Some?
    requires generate(call, Prompt(ToString(rule).value, pdfText)).Some?
    requires parse(Clean(generate(call, Prompt(ToString(rule).value, pdfText)).value)).None?
    ensures EvaluateRule(rule, call, pdfText, generate, parse) == Some(Fallback(rule))
  {
  }

  /** The batch succeeds exactly when every rule's evaluation does, and then
      holds one verdict per rule, the i-th for the i-th rule and the i-th model
      call: no rule is skipped, merged or reordered. */
  lemma {:induction false} BatchResultsPerRule(rules: seq<Value>, pdfText: string, generate: Generator, parse: Parser)
    ensures BatchResults(rules, pdfText, generate, parse).Some?
        <==> forall i :: 0 <= i < |rules| ==> EvaluateRule(rules[i], i, pdfText, generate, parse).Some?
    ensures BatchResults(rules, pdfText, generate, parse).Some? ==>
              var results := BatchResults(rules, pdfText, generate, parse).value;
              && |results| == |rules|
              && forall i :: 0 <= i < |rules| ==> results[i] == EvaluateRule(rules[i], i, pdfText, generate, parse).value
    decreases |rules|
  {
    if rules != [] {
      var n := |rules| - 1;
      var init := rules[..n];
      BatchResultsPerRule(init, pdfText, generate, parse);
      var done := BatchResults(init, pdfText, generate, parse);
      var last := EvaluateRule(rules[n], n, pdfText, generate, parse);
      if done.None? {
        var j :| 0 <= j < n && EvaluateRule(init[j], j, pdfText, generate, parse).None?;
        assert rules[j] == init[j];
      } else if last.None? {
        assert BatchResults(rules, pdfText, generate, parse).None?;
      } else {
        var results := done.value + [last.value];
        assert BatchResults(rules, pdfText, generate, parse) == Some(results);
        forall i | 0 <= i < |rules|
          ensures EvaluateRule(rules[i], i, pdfText, generate, parse) == Some(results[i])
        {
          if i < n {
            assert rules[i] == init[i] && results[i] == done.value[i];
          }
        }
      }
    }
  }

  /** The per-rule loop: one verdict pushed per rule, in order, the i-th rule
      going out as the request's i-th model call; a rule whose prompt cannot
      be built or whose model call throws abandons the loop and the results
      gathered so far. */
  method EvaluateRules(rules: seq<Value>, pdfText: string, generate: Generator, parse: Parser)
    returns (out: Option<seq<Value>>)
    ensures out.Some? <==> forall i :: 0 <= i < |rules| ==> EvaluateRule(rules[i], i, pdfText, generate, parse).Some?
    ensures out.Some? ==> |out.value| == |rules|
    ensures out.Some? ==> forall i :: 0 <= i < |rules| ==> out.value[i] == EvaluateRule(rules[i], i, pdfText, generate, parse).value
  {
    var results: seq<Value> := [];
    var i := 0;
    while i < |rules|
      invariant 0 <= i <= |rules| && |results| == i
      invariant BatchResults(rules[..i], pdfText, generate, parse) == Some(results)
    {
      var rule := rules[i];
      var ruleText := ToString(rule);
      if ruleText.None? {
        assert EvaluateRule(rules[i], i, pdfText, generate, parse).None?;
        return None;
      }
      var response := generate(i, Prompt(ruleText.value, pdfText));
      if response.None? {
        assert EvaluateRule(rules[i], i, pdfText, generate, parse).None?;
        return None;
      }
      var aiText := Trim(response.value);
      aiText := Trim(StripFences(aiText));
      var jsonResult: Value;
      var parsed := parse(aiText);
      if parsed.Some? {
        jsonResult := parsed.value;
      } else {
        jsonResult := Fallback(rule);
      }
      assert EvaluateRule(rule, i, pdfText, generate, parse) == Some(jsonResult);
      assert rules[..i + 1][..i] == rules[..i];
      results := results + [jsonResult];
      i := i + 1;
    }
    assert rules[..i] == rules;
    BatchResultsPerRule(rules, pdfText, generate, parse);
    return Some(results);
  }

  /** `checkDocument`: each `return` and the `catch` block of the source is
      one of the early replies below. */
  method CheckDocument(rulesField: Option<string>, upload: Option<Bytes>,
                       parse: Parser, extract: Extractor, generate: Generator)
    returns (reply: Reply)
    ensures reply == Handle(rulesField, upload, parse, extract, generate)
  {
    var rules: Value;
    if rulesField.Some? && rulesField.value != "" {
      var parsed := parse(rulesField.value);
      if parsed.None? {
        return FailedReply;
      }
      rules := parsed.value;
    } else {
      rules := Array([]);
    }
    if upload.None? {
      return NoPdfReply;
    }
    var pdfData := extract(upload.value);
    if pdfData.ExtractionThrew? {
      return FailedReply;
    }
    var pdfText := pdfData.text.GetOr("");
    var list := RuleList(rules);
    if list.None? {
      return FailedReply;
    }
    var results := EvaluateRules(list.value, pdfText, generate, parse);
    BatchResultsPerRule(list.value, pdfText, generate, parse);
    if results.None? {
      return FailedReply;
    }
    var expected := BatchResults(list.value, pdfText, generate, parse).value;
    assert results.value == expected;
    reply := SuccessReply(results.value);
  }

  /** Malformed rules fail the request with 500 before the file is even
      looked at, so a request without a file gets 500, not 400. */
  lemma MalformedRulesFail(rulesField: Option<string>, upload: Option<Bytes>,
                           parse: Parser, extract: Extractor, generate: Generator)
    requires rulesField.Some? && rulesField.value != "" && parse(rulesField.value).None?
    ensures Handle(rulesField, upload, parse, extract, generate) == FailedReply
  {
  }

  /** Well-formed (or absent) rules and no file give 400 "No PDF uploaded". */
  lemma MissingFileRejected(rulesField: Option<string>, parse: Parser, extract: Extractor, generate: Generator)
    requires RulesValue(rulesField, parse).Some?
    ensures Handle(rulesField, None, parse, extract, generate) == NoPdfReply
  {
  }

  /** With no rules field, an extracted document gets an empty result list. */
  lemma AbsentRulesGiveNoResults(upload: Bytes, parse: Parser, extract: Extractor, generate: Generator)
    requires extract(upload).Extracted?
    ensures Handle(None, Some(upload), parse, extract, generate) == SuccessReply([])
  {
  }

  /** Every request ends in exactly one of three ways: 200 with one verdict
      per rule, in rule order, after removing the temporary file; 400 for a
      missing file; or 500 with no results at all. A throwing extraction
      gives the 500 (a throwing rule does too: `ModelFailureFailsRequest`). */
  lemma HandleOutcomes(rulesField: Option<string>, upload: Option<Bytes>,
                       parse: Parser, extract: Extractor, generate: Generator)
    ensures var reply := Handle(rulesField, upload, parse, extract, generate);
      && (reply.status == 200 || reply == NoPdfReply || reply == FailedReply)
      && (reply.cleanedUp <==> reply.status == 200)
      && (upload.Some? && extract(upload.value).ExtractionThrew? ==> reply.status == 500)
      && (reply.status == 200 ==>
            && RulesValue(rulesField, parse).Some? && upload.Some?
            && extract(upload.value).Extracted?
            && RuleList(RulesValue(rulesField, parse).value).Some?
            && var rules := RuleList(RulesValue(rulesField, parse).value).value;
               var pdfText := PdfText(extract(upload.value));
               exists results ::
                 && reply == SuccessReply(results)
                 && |results| == |rules|
                 && forall i :: 0 <= i < |rules| ==>
                      EvaluateRule(rules[i], i, pdfText, generate, parse) == Some(results[i]))
  {
    var reply := Handle(rulesField, upload, parse, extract, generate);
    if reply.status == 200 {
      var rules := RuleList(RulesValue(rulesField, parse).value).value;
      var pdfText := PdfText(extract(upload.value));
      BatchResultsPerRule(rules, pdfText, generate, parse);
      var results := BatchResults(rules, pdfText, generate, parse).value;
      assert reply == SuccessReply(results);
    }
  }

  /** If evaluating any rule throws (its prompt cannot be built, or its model
      call throws), the whole request fails. */
  lemma ModelFailureFailsRequest(rulesField: Option<string>, upload: Option<Bytes>,
                                 parse: Parser, extract: Extractor, generate: Generator, k: nat)
    requires RulesValue(rulesField, parse).Some? && upload.Some? && extract(upload.value).Extracted?
    requires RuleList(RulesValue(rulesField, parse).value).Some?
    requires var rules := RuleList(RulesValue(rulesField, parse).value).value;
             k < |rules| && EvaluateRule(rules[k], k, PdfText(extract(upload.value)), generate, parse).None?
    ensures Handle(rulesField, upload, parse, extract, generate) == FailedReply
  {
    var rules := RuleList(RulesValue(rulesField, parse).value).value;
    BatchResultsPerRule(rules, PdfText(extract(upload.value)), generate, parse);
  }
  /** The converse of `HandleOutcomes`: readable rules, a file whose text
      extracts, an iterable rule list and no throwing rule give the 200
      answer. */
  lemma HandleSucceeds(rulesField: Option<string>, upload: Option<Bytes>,
                       parse: Parser, extract: Extractor, generate: Generator)
    requires RulesValue(rulesField, parse).Some? && upload.Some? && extract(upload.value).Extracted?
    requires RuleList(RulesValue(rulesField, parse).value).Some?
    requires var rules := RuleList(RulesValue(rulesField, parse).value).value;
             forall i :: 0 <= i < |rules| ==>
               EvaluateRule(rules[i], i, PdfText(extract(upload.value)), generate, parse).Some?
    ensures Handle(rulesField, upload, parse, extract, generate).status == 200
    ensures Handle(rulesField, upload, parse, extract, generate).cleanedUp
  {
    var rules := RuleList(RulesValue(rulesField, parse).value).value;
    BatchResultsPerRule(rules, PdfText(extract(upload.value)), generate, parse);
  }

  /** A parsed rules value that `for…of` cannot iterate (not an array or a
      string) fails the request with 500 once the file is extracted. */
  lemma NonIterableRulesFail(rulesField: Option<string>, upload: Option<Bytes>,
                             parse: Parser, extract: Extractor, generate: Generator)
    requires RulesValue(rulesField, parse).Some? && upload.Some? && extract(upload.value).Extracted?
    requires RuleList(RulesValue(rulesField, parse).value).None?
    ensures Handle(rulesField, upload, parse, extract, generate) == FailedReply
  {
  }

  /** A rule holding an object with its own `toString` key fails the whole
      request with 500, before its model call is made. */
  lemma UnconvertibleRuleFailsRequest(rulesField: Option<string>, upload: Option<Bytes>,
                                      parse: Parser, extract: Extractor, generate: Generator, k: nat)
    requires RulesValue(rulesField, parse).Some? && upload.Some? && extract(upload.value).Extracted?
    requires RuleList(RulesValue(rulesField, parse).value).Some?
    requires var rules := RuleList(RulesValue(rulesField, parse).value).value;
             k < |rules| && HoldsToStringKey(rules[k])
    ensures Handle(rulesField, upload, parse, extract, generate) == FailedReply
  {
    var rules := RuleList(RulesValue(rulesField, parse).value).value;
    EvaluateRuleThrowsIff(rules[k], k, PdfText(extract(upload.value)), generate, parse);
    ModelFailureFailsRequest(rulesField, upload, parse, extract, generate, k);
  }

  /** `[…activeRules].map(Str)`: the value `JSON.stringify` writes for the
      rules the page sends. */
  function StrValues(texts: seq<string>): (vs: seq<Value>)
    ensures |vs| == |texts| && forall i :: 0 <= i < |texts| ==> vs[i] == Str(texts[i])
  {
    seq(|texts|, i requires 0 <= i < |texts| => Str(texts[i]))
  }

  /** The page sends its rules as a JSON array of strings. When that field
      parses back to the array, the loop visits exactly those rules in order,
      and each rule converts, without throwing, to its own text, which is
      what its prompt quotes. */
  lemma SentRulesVisited(field: string, sent: seq<string>, parse: Parser)
    requires field != "" && parse(field) == Some(Array(StrValues(sent)))
    ensures RulesValue(Some(field), parse) == Some(Array(StrValues(sent)))
    ensures RuleList(RulesValue(Some(field), parse).value) == Some(StrValues(sent))
    ensures forall i :: 0 <= i < |sent| ==>
              && !HoldsToStringKey(StrValues(sent)[i])
              && ToString(StrValues(sent)[i]) == Some(sent[i])
  {
  }

}
