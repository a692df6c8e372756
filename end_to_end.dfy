/** How the page reads what the server's handler answers. */
module EndToEnd {
  import opened Wrappers
  import opened JsValue
  import opened Fences
  import opened CheckController
  import opened Home

  /** The page can read every answer the handler gives: a 200 answer puts
      its verdicts, in rule order, into the results list; a 400 or 500
      answer has no `results` field, so the page shows an empty list. */
  lemma PageReadsEveryReply(rulesField: Option<string>, upload: Option<Bytes>,
                            parse: Parser, extract: Extractor, generate: Generator)
    ensures var reply := Handle(rulesField, upload, parse, extract, generate);
      && ReadResults(reply.body).Some?
      && (reply.status == 200 ==> ReadResults(reply.body) == Some(reply.body.fields["results"].items))
      && (reply.status != 200 ==> ReadResults(reply.body) == Some([]))
  {
    HandleReplyShapes(rulesField, upload, parse, extract, generate);
  }

  /** The fallback record never counts as passed. */
  lemma FallbackNeverPasses(rule: Value)
    ensures !IsPass(Fallback(rule))
  {
    assert Fallback(rule).fields["status"] == Str("fail");
  }

  lemma {:induction false} NoPassNoCount(results: seq<Value>)
    requires forall i :: 0 <= i < |results| ==> !IsPass(results[i])
    ensures PassCount(results) == 0
    decreases |results|
  {
    if results != [] {
      assert forall i :: 1 <= i < |results| ==> results[i] == results[1..][i - 1];
      NoPassNoCount(results[1..]);
    }
  }

  /** When no cleaned reply the model gives parses, the list holds one
      verdict per rule, each that rule's fallback record, and the pass counter
      is 0 (the page shows "0 of N rules passed" when N > 0, and its empty
      state when there are no rules). */
  lemma UnparsableRepliesNeverPass(rulesField: Option<string>, upload: Option<Bytes>,
                                   parse: Parser, extract: Extractor, generate: Generator)
    requires forall n, p :: generate(n, p).Some? ==> parse(Clean(generate(n, p).value)).None?
    requires Handle(rulesField, upload, parse, extract, generate).status == 200
    ensures var results := ReadResults(Handle(rulesField, upload, parse, extract, generate).body).value;
      && PassCount(results) == 0
      && |results| == |RuleList(RulesValue(rulesField, parse).value).value|
      && forall i :: 0 <= i < |results| ==>
           results[i] == Fallback(RuleList(RulesValue(rulesField, parse).value).value[i])
  {
    var reply := Handle(rulesField, upload, parse, extract, generate);
    assert RulesValue(rulesField, parse).Some? && upload.Some? && extract(upload.value).Extracted?;
    assert RuleList(RulesValue(rulesField, parse).value).Some?;
    var rules := RuleList(RulesValue(rulesField, parse).value).value;
    var pdfText := PdfText(extract(upload.value));
    var results := BatchResults(rules, pdfText, generate, parse).value;
    assert reply == SuccessReply(results);
    BatchResultsPerRule(rules, pdfText, generate, parse);
    forall i | 0 <= i < |results| ensures results[i] == Fallback(rules[i]) && !IsPass(results[i]) {
      var rule := rules[i];
      assert EvaluateRule(rule, i, pdfText, generate, parse).Some?;
      var prompt := Prompt(ToString(rule).value, pdfText);
      assert generate(i, prompt).Some?;
      EvaluateRuleFallback(rule, i, pdfText, generate, parse);
      FallbackNeverPasses(rule);
    }
    NoPassNoCount(results);
  }
}
