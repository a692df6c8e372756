/** The page component: the PDF selection, the editable list of rule strings,
    the submit guard and the results display.

    Each handler of the component is a method of `HomePage`; the list
    operations it applies are the functions before the class. */
module Home {
  import opened Wrappers
  import opened Text
  import opened JsValue

  datatype Tab = Upload | Preview | Results

  /** The parts of a browser `File` the page looks at. */
  datatype PdfFile = PdfFile(name: string, mimeType: string, size: nat)

  /** What pressing "Check" does: show an alert, or send the PDF and rules. */
  datatype Submission = Alert(message: string) | Request(pdf: PdfFile, rules: seq<string>)

  const PdfMimeType: string := "application/pdf"

  /** Three empty rule inputs: the starting list and the list after "Clear". */
  const InitialRules: seq<string> := ["", "", ""]

  /** The "Quick Rules" buttons. */
  const PredefinedRules: seq<string> := [
    "The document must have a purpose section.",
    "The document must mention at least one date.",
    "The document must define at least one term.",
    "The document must mention who is responsible.",
    "The document must list any requirements."
  ]

  /** `rules.findIndex(r => r.trim() === "")`: the first blank slot, or -1. */
  function FirstBlank(rules: seq<string>): (k: int)
    ensures -1 <= k < |rules|
    ensures k == -1 <==> forall j :: 0 <= j < |rules| ==> !IsBlank(rules[j])
    ensures k >= 0 ==> IsBlank(rules[k]) && forall j :: 0 <= j < k ==> !IsBlank(rules[j])
    decreases |rules|
  {
    if rules == [] then -1
    else if IsBlank(rules[0]) then 0
    else
      var k := FirstBlank(rules[1..]);
      if k == -1 then -1 else k + 1
  }

  /** The list after `addPredefinedRule(rule)`: the rule goes into the first
      blank slot, or is appended when there is none. */
  function WithPredefined(rules: seq<string>, rule: string): seq<string> {
    var emptyIndex := FirstBlank(rules);
    if emptyIndex != -1 then rules[emptyIndex := rule] else rules + [rule]
  }

  /** A quick rule fills the first blank slot and changes no other slot; when
      every slot holds a rule, it is appended. */
  lemma WithPredefinedSlots(rules: seq<string>, rule: string)
    ensures var u := WithPredefined(rules, rule);
      && ((forall j :: 0 <= j < |rules| ==> !IsBlank(rules[j])) ==> u == rules + [rule])
      && ((exists j :: 0 <= j < |rules| && IsBlank(rules[j])) ==>
            && |u| == |rules|
            && exists k ::
                 && 0 <= k < |rules| && IsBlank(rules[k])
                 && (forall j :: 0 <= j < k ==> !IsBlank(rules[j]))
                 && u[k] == rule
                 && forall j :: 0 <= j < |rules| && j != k ==> u[j] == rules[j])
  {
    var k := FirstBlank(rules);
    if k != -1 {
      assert WithPredefined(rules, rule)[k] == rule;
    }
  }

  /** The list after `removeRule(index)`: every entry whose position is not
      `index` in order, then one new blank input at the end. */
  function WithoutRule(rules: seq<string>, index: int): seq<string> {
    var updated := if 0 <= index < |rules| then rules[..index] + rules[index + 1..] else rules;
    updated + [""]
  }

  /** Removing the entry at a slot keeps the length: the entries before it
      stay, the ones after it move one slot to the left, and the last slot
      becomes blank. An index outside the list removes nothing and still
      adds the blank slot. */
  lemma WithoutRuleSlots(rules: seq<string>, index: int)
    ensures var u := WithoutRule(rules, index);
      && (0 <= index < |rules| ==>
            && |u| == |rules|
            && u[..index] == rules[..index]
            && (forall j :: index <= j < |rules| - 1 ==> u[j] == rules[j + 1])
            && u[|rules| - 1] == "")
      && (!(0 <= index < |rules|) ==> u == rules + [""])
  {
  }

  /** `rules.filter(r => r.trim() !== "")`: the rules that are sent. */
  function ActiveRules(rules: seq<string>): (a: seq<string>)
    ensures |a| <= |rules|
    decreases |rules|
  {
    if rules == [] then []
    else if IsBlank(rules[0]) then ActiveRules(rules[1..])
    else [rules[0]] + ActiveRules(rules[1..])
  }

  /** `r.status === "pass"` for one entry of the results list. */
  predicate IsPass(v: Value) {
    v.Object? && "status" in v.fields && v.fields["status"] == Str("pass")
  }

  /** `results.filter(r => r.status === "pass").length`, the "N of M rules
      passed" counter. */
  function PassCount(results: seq<Value>): (n: nat)
    ensures n <= |results|
    decreases |results|
  {
    if results == [] then 0
    else (if IsPass(results[0]) then 1 else 0) + PassCount(results[1..])
  }

  /** `data.results || []` for the server's JSON answer `data`; `None` where
      reading `.results` throws (a `null` answer). */
  function ReadResults(data: Value): (r: Option<seq<Value>>)
    ensures r.None? <==> data.Null?
    ensures (data.Object? && "results" in data.fields && data.fields["results"].Array?)
              ==> r == Some(data.fields["results"].items)
  {
    match data
    case Null => None
    case Object(fields) =>
      if "results" in fields && Truthy(fields["results"]) && fields["results"].Array?
      then Some(fields["results"].items)
      else Some([])
    case _ => Some([])
  }

  /** Filtering distributes over concatenation: the active rules keep their
      relative order. */
  lemma {:induction false} ActiveRulesAppend(a: seq<string>, b: seq<string>)
    ensures ActiveRules(a + b) == ActiveRules(a) + ActiveRules(b)
    decreases |a|
  {
    if a == [] {
      assert a + b == b;
    } else {
      assert (a + b)[1..] == a[1..] + b;
      ActiveRulesAppend(a[1..], b);
    }
  }

  /** No active rule is blank. */
  lemma {:induction false} ActiveRulesNonBlank(rules: seq<string>)
    ensures forall j :: 0 <= j < |ActiveRules(rules)| ==> !IsBlank(ActiveRules(rules)[j])
    decreases |rules|
  {
    if rules != [] {
      ActiveRulesNonBlank(rules[1..]);
    }
  }

  /** A string is an active rule exactly when it is a non-blank entry. */
  lemma {:induction false} ActiveRulesMembership(rules: seq<string>, r: string)
    ensures r in ActiveRules(rules) <==> r in rules && !IsBlank(r)
    decreases |rules|
  {
    if rules != [] {
      ActiveRulesMembership(rules[1..], r);
      assert rules == [rules[0]] + rules[1..];
    }
  }

  /** Filtering keeps the list as it is exactly when no entry is blank. */
  lemma {:induction false} ActiveRulesFixpoint(rules: seq<string>)
    ensures ActiveRules(rules) == rules <==> forall j :: 0 <= j < |rules| ==> !IsBlank(rules[j])
    decreases |rules|
  {
    if rules != [] {
      var t := rules[1..];
      ActiveRulesFixpoint(t);
      assert forall j :: 1 <= j < |rules| ==> rules[j] == t[j - 1];
      if !IsBlank(rules[0]) {
        assert ActiveRules(rules) == [rules[0]] + ActiveRules(t);
        assert ActiveRules(rules)[1..] == ActiveRules(t);
        assert rules == [rules[0]] + t;
      }
    }
  }

  lemma ActiveRulesSingleton(x: string)
    ensures ActiveRules([x]) == if IsBlank(x) then [] else [x]
  {
    assert [x][1..] == [];
  }

  /** The active rules of a list split around one entry. */
  lemma ActiveRulesAround(before: seq<string>, x: string, after: seq<string>)
    ensures ActiveRules(before + [x] + after) == ActiveRules(before) + ActiveRules([x]) + ActiveRules(after)
  {
    ActiveRulesAppend(before + [x], after);
    ActiveRulesAppend(before, [x]);
  }

  /** The fresh page and "Clear" offer nothing to send. */
  lemma InitialRulesInactive()
    ensures ActiveRules(InitialRules) == []
  {
    assert IsBlank("");
    assert InitialRules[1..][1..][1..] == [];
  }

  /** A rule ending in a full stop is not blank. */
  lemma SentenceNonBlank(r: string)
    requires |r| > 0 && r[|r| - 1] == '.'
    ensures !IsBlank(r)
  {
    BlankIffAllWhitespace(r);
  }

  /** Every quick rule is non-blank. */
  lemma PredefinedRulesNonBlank()
    ensures forall j :: 0 <= j < |PredefinedRules| ==> !IsBlank(PredefinedRules[j])
  {
    forall j | 0 <= j < |PredefinedRules| ensures !IsBlank(PredefinedRules[j]) {
      if j == 0 {
        var r := "The document must have a purpose section.";
        assert PredefinedRules[0] == r && r[|r| - 1] == '.';
        SentenceNonBlank(r);
      } else if j == 1 {
        var r := "The document must mention at least one date.";
        assert PredefinedRules[1] == r && r[|r| - 1] == '.';
        SentenceNonBlank(r);
      } else if j == 2 {
        var r := "The document must define at least one term.";
        assert PredefinedRules[2] == r && r[|r| - 1] == '.';
        SentenceNonBlank(r);
      } else if j == 3 {
        var r := "The document must mention who is responsible.";
        assert PredefinedRules[3] == r && r[|r| - 1] == '.';
        SentenceNonBlank(r);
      } else {
        var r := "The document must list any requirements.";
        assert PredefinedRules[4] == r && r[|r| - 1] == '.';
        SentenceNonBlank(r);
      }
    }
  }

  /** Adding a non-blank quick rule adds exactly that rule to what is sent. */
  lemma AddPredefinedActivates(rules: seq<string>, rule: string)
    requires !IsBlank(rule)
    ensures |ActiveRules(WithPredefined(rules, rule))| == |ActiveRules(rules)| + 1
    ensures rule in ActiveRules(WithPredefined(rules, rule))
    ensures exists i :: 0 <= i <= |ActiveRules(rules)| &&
              ActiveRules(WithPredefined(rules, rule))
              == ActiveRules(rules)[..i] + [rule] + ActiveRules(rules)[i..]
  {
    var u := WithPredefined(rules, rule);
    var k := FirstBlank(rules);
    ActiveRulesSingleton(rule);
    if k == -1 {
      ActiveRulesAppend(rules, [rule]);
      SpliceLength(ActiveRules(u), ActiveRules(rules), [rule], []);
      InsertAt(ActiveRules(rules), ActiveRules(u), ActiveRules(rules), rule, []);
    } else {
      var before, after := rules[..k], rules[k + 1..];
      SplitAt(rules, k);
      SplitAt(u, k);
      ActiveRulesAround(before, rules[k], after);
      ActiveRulesAround(before, rule, after);
      ActiveRulesSingleton(rules[k]);
      SpliceLength(ActiveRules(rules), ActiveRules(before), [], ActiveRules(after));
      SpliceLength(ActiveRules(u), ActiveRules(before), [rule], ActiveRules(after));
      InsertAt(ActiveRules(rules), ActiveRules(u), ActiveRules(before), rule, ActiveRules(after));
    }
  }

  /** A sequence with `x` put between `before` and `after` is the sequence
      `before + after` with `x` inserted at position `|before|`. */
  lemma InsertAt(whole: seq<string>, grown: seq<string>, before: seq<string>, x: string, after: seq<string>)
    requires whole == before + [] + after && grown == before + [x] + after
    ensures 0 <= |before| <= |whole| && grown == whole[..|before|] + [x] + whole[|before|..]
  {
    assert whole[..|before|] == before;
    assert whole[|before|..] == after;
  }

  /** The length of a three-part sequence, and the middle part's members
      belong to the whole. */
  lemma SpliceLength(whole: seq<string>, before: seq<string>, mid: seq<string>, after: seq<string>)
    requires whole == before + mid + after
    ensures |whole| == |before| + |mid| + |after|
    ensures forall e :: e in mid ==> e in whole
  {
    forall e | e in mid ensures e in whole {
      var i :| 0 <= i < |mid| && mid[i] == e;
      assert whole[|before| + i] == e;
    }
  }

  /** Removing a slot removes its rule, if any, from what is sent, and keeps
      the others in order. */
  lemma RemoveRuleActive(rules: seq<string>, index: int)
    requires 0 <= index < |rules|
    ensures ActiveRules(WithoutRule(rules, index)) == ActiveRules(rules[..index]) + ActiveRules(rules[index + 1..])
    ensures IsBlank(rules[index]) ==> ActiveRules(WithoutRule(rules, index)) == ActiveRules(rules)
    ensures !IsBlank(rules[index]) ==> |ActiveRules(WithoutRule(rules, index))| == |ActiveRules(rules)| - 1
  {
    ActiveRulesWithoutRule(rules, index);
    ActiveRulesAt(rules, index);
    ActiveRulesSingleton(rules[index]);
    DropMiddle(ActiveRules(rules), ActiveRules(WithoutRule(rules, index)),
               ActiveRules(rules[..index]), ActiveRules([rules[index]]), ActiveRules(rules[index + 1..]));
  }

  lemma DropMiddle(whole: seq<string>, rest: seq<string>, before: seq<string>, mid: seq<string>, after: seq<string>)
    requires whole == before + mid + after && rest == before + after
    ensures mid == [] ==> rest == whole
    ensures |rest| == |whole| - |mid|
  {
    if mid == [] {
      assert before + mid == before;
    }
  }

  lemma SplitAt(rules: seq<string>, index: int)
    requires 0 <= index < |rules|
    ensures rules == rules[..index] + [rules[index]] + rules[index + 1..]
  {
  }

  /** The active rules of a list split around its entry at `index`. */
  lemma ActiveRulesAt(rules: seq<string>, index: int)
    requires 0 <= index < |rules|
    ensures ActiveRules(rules)
         == ActiveRules(rules[..index]) + ActiveRules([rules[index]]) + ActiveRules(rules[index + 1..])
  {
    SplitAt(rules, index);
    ActiveRulesAround(rules[..index], rules[index], rules[index + 1..]);
  }

  lemma ActiveRulesWithoutRule(rules: seq<string>, index: int)
    requires 0 <= index < |rules|
    ensures ActiveRules(WithoutRule(rules, index)) == ActiveRules(rules[..index]) + ActiveRules(rules[index + 1..])
  {
    var before, after := rules[..index], rules[index + 1..];
    assert WithoutRule(rules, index) == (before + after) + [""];
    ActiveRulesAppend(before + after, [""]);
    ActiveRulesSingleton("");
    assert ActiveRules(before + after) + [] == ActiveRules(before + after);
    ActiveRulesAppend(before, after);
  }

  /** The counter reaches the number of results exactly when every result
      passed. */
  lemma {:induction false} PassCountAll(results: seq<Value>)
    ensures PassCount(results) == |results| <==> forall i :: 0 <= i < |results| ==> IsPass(results[i])
    decreases |results|
  {
    if results != [] {
      PassCountAll(results[1..]);
      assert forall i :: 1 <= i < |results| ==> results[i] == results[1..][i - 1];
    }
  }

  class HomePage {
    var pdf: Option<PdfFile>
    var pdfUrl: Option<string>
    var rules: seq<string>
    var results: seq<Value>
    var loading: bool
    var activeTab: Tab

    /** The rule list never has fewer than the three starting inputs. */
    ghost predicate Valid()
      reads this
    {
      |rules| >= |InitialRules|
    }

    /** The component's initial state. */
    constructor ()
      ensures Valid()
      ensures pdf == None && pdfUrl == None && rules == InitialRules
      ensures results == [] && !loading && activeTab == Upload
    {
      pdf := None;
      pdfUrl := None;
      rules := InitialRules;
      results := [];
      loading := false;
      activeTab := Upload;
    }

    /** `handlePdfUpload`: only a file of type "application/pdf" is taken,
        and taking it shows the preview. `objectUrl` stands for what
        `URL.createObjectURL` returns. */
    method HandlePdfUpload(file: Option<PdfFile>, objectUrl: string)
      modifies this`pdf, this`pdfUrl, this`activeTab
      ensures file.Some? && file.value.mimeType == PdfMimeType ==>
                pdf == file && pdfUrl == Some(objectUrl) && activeTab == Preview
      ensures !(file.Some? && file.value.mimeType == PdfMimeType) ==> unchanged(this)
    {
      if file.Some? && file.value.mimeType == PdfMimeType {
        pdf := file;
        pdfUrl := Some(objectUrl);
        activeTab := Preview;
      }
    }

    /** The remove button on the selected file: back to the upload tab. */
    method RemovePdf()
      modifies this`pdf, this`pdfUrl, this`activeTab
      ensures pdf == None && pdfUrl == None && activeTab == Upload
    {
      pdf := None;
      pdfUrl := None;
      activeTab := Upload;
    }

    /** The "PDF Preview" and "Results" tab buttons; no button selects the
        upload tab. */
    method ShowTab(tab: Tab)
      requires tab != Upload
      modifies this`activeTab
      ensures activeTab == tab
    {
      activeTab := tab;
    }

    /** `handleRuleChange(index, value)`: one slot is overwritten, the
        length and every other slot stay. */
    method HandleRuleChange(index: int, value: string)
      requires Valid() && 0 <= index < |rules|
      modifies this`rules
      ensures Valid()
      ensures |rules| == |old(rules)| && rules[index] == value
      ensures forall j :: 0 <= j < |rules| && j != index ==> rules[j] == old(rules)[j]
    {
      var updated := rules;
      updated := updated[index := value];
      rules := updated;
    }

    /** `addPredefinedRule(rule)`. */
    method AddPredefinedRule(rule: string)
      requires Valid()
      modifies this`rules
      ensures Valid()
      ensures rules == WithPredefined(old(rules), rule)
    {
      var emptyIndex := FirstBlank(rules);
      if emptyIndex != -1 {
        HandleRuleChange(emptyIndex, rule);
        assert rules == old(rules)[emptyIndex := rule];
      } else {
        rules := rules + [rule];
      }
    }

    /** `removeRule(index)`: the list keeps its length when `index` is a
        slot of it, so there are always at least three inputs. */
    method RemoveRule(index: int)
      requires Valid()
      modifies this`rules
      ensures Valid()
      ensures rules == WithoutRule(old(rules), index)
    {
      WithoutRuleSlots(rules, index);
      rules := WithoutRule(rules, index);
    }

    /** `clearAllRules`. */
    method ClearAllRules()
      modifies this`rules
      ensures Valid() && rules == InitialRules
    {
      rules := InitialRules;
    }

    /** `handleSubmit` up to the request: without a PDF, or without a
        non-blank rule, it only alerts; otherwise it marks the page as
        loading, clears the old results and sends the PDF with the active
        rules. */
    method HandleSubmit() returns (outcome: Submission)
      modifies this`loading, this`results
      ensures pdf.None? ==> outcome == Alert("Please upload a PDF") && unchanged(this)
      ensures pdf.Some? && ActiveRules(rules) == [] ==>
                outcome == Alert("Please add at least one rule") && unchanged(this)
      ensures pdf.Some? && ActiveRules(rules) != [] ==>
                && outcome == Request(pdf.value, ActiveRules(rules))
                && loading && results == []
      ensures outcome.Request? ==>
                |outcome.rules| > 0 && forall j :: 0 <= j < |outcome.rules| ==> !IsBlank(outcome.rules[j])
    {
      if pdf.None? {
        return Alert("Please upload a PDF");
      }
      var activeRules := ActiveRules(rules);
      ActiveRulesNonBlank(rules);
      if |activeRules| == 0 {
        return Alert("Please add at least one rule");
      }
      loading := true;
      results := [];
      outcome := Request(pdf.value, activeRules);
    }

    /** `handleSubmit` after the request: `data` is the parsed answer, or
        `None` when the request or the parsing threw. A readable answer
        replaces the results and shows them; otherwise the page alerts
        "Something went wrong". Either way loading ends. */
    method ReceiveReply(data: Option<Value>) returns (alert: Option<string>)
      modifies this`results, this`activeTab, this`loading
      ensures !loading
      ensures data.Some? && ReadResults(data.value).Some? ==>
                && results == ReadResults(data.value).value && activeTab == Results
                && alert == None
      ensures !(data.Some? && ReadResults(data.value).Some?) ==>
                && results == old(results) && activeTab == old(activeTab)
                && alert == Some("Something went wrong")
    {
      alert := None;
      var read := if data.Some? then ReadResults(data.value) else None;
      if read.Some? {
        results := read.value;
        activeTab := Results;
      } else {
        alert := Some("Something went wrong");
      }
      loading := false;
    }
  }
}
