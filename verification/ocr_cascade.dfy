/**
 * The categorizer the batch pipeline actually calls (`categorizeDocument` in
 * the application component): six case-insensitive cue patterns tried in a
 * fixed order on the lowercased text; the first one that matches decides the
 * category and a fixed confidence, and a text no cue matches is
 * "Other Documents" with confidence 50.
 */
module DocumentCascade {
  import opened Common
  import opened Patterns
  import Text

  /** One `if (/.../i.test(textLower)) return {category, confidence}` step. */
  datatype Cue = Cue(pattern: Pattern, category: string, confidence: int)

  /** The `{category, confidence}` object the cascade returns. */
  datatype Label = Label(category: string, confidence: int)

  const Cues: seq<Cue> := [
    Cue(Regex(@"\bw-?[2-9]\b|\b1099\b|\b1040\b|\btax return\b|\birs\b", true), "Tax Documents", 85),
    Cue(Regex(@"\binvoice\b|\bdue date\b|\bpayment due\b|\bbill\b", true), "Invoices", 80),
    Cue(Regex(@"\breceipt\b|\bpaid\b|\bpurchase\b|\btransaction complete\b", true), "Receipts", 80),
    Cue(Regex(@"\bstatement\b|\bbank\b|\baccount\b|\bbalance\b", true), "Bank Statements", 75),
    Cue(Regex(@"\bpay stub\b|\bpayroll\b|\bgross pay\b|\bnet pay\b|\bwages\b", true), "Payroll", 85),
    Cue(Regex(@"\bexpense\b|\breimbursement\b|\bmileage\b", true), "Expense Reports", 80)
  ]

  /** The answer when no cue matches. */
  const Fallback: Label := Label("Other Documents", 50)

  function LabelOf(c: Cue): Label
  {
    Label(c.category, c.confidence)
  }

  /** Position of the first cue whose pattern matches `text`, if any. */
  function FirstMatch(cues: seq<Cue>, text: string, matches: Matcher): (r: Option<nat>)
    ensures r.None? <==> forall i :: 0 <= i < |cues| ==> !matches(cues[i].pattern, text)
    ensures r.Some? ==> r.value < |cues| && matches(cues[r.value].pattern, text)
    ensures r.Some? ==> forall j :: 0 <= j < r.value ==> !matches(cues[j].pattern, text)
  {
    if cues == [] then None
    else if matches(cues[0].pattern, text) then Some(0)
    else match FirstMatch(cues[1..], text, matches)
      case None => None
      case Some(i) => Some(i + 1)
  }

  /** `categorizeDocument(text)`. */
  function CategorizeDocument(text: string, matches: Matcher): (r: Label)
    ensures r == Fallback || exists i :: 0 <= i < |Cues| && r == LabelOf(Cues[i])
  {
    match FirstMatch(Cues, Text.ToLower(text), matches)
    case None => Fallback
    case Some(i) => LabelOf(Cues[i])
  }

  /** Every category name starts with a capital letter. */
  lemma CuesCapitalised(i: nat)
    requires i < |Cues|
    ensures |Cues[i].category| > 0 && 'A' <= Cues[i].category[0] <= 'Z'
  { }

  /** The six categories are distinct, and none is "Other Documents". */
  lemma CuesDistinct()
    ensures forall i, j :: 0 <= i < j < |Cues| ==> Cues[i].category != Cues[j].category
    ensures forall i :: 0 <= i < |Cues| ==> Cues[i].category != Fallback.category
  {
  }

  /** "Other Documents" (with 50) comes back exactly when no cue matches the lowercased text. */
  lemma FallbackIffNoCue(text: string, matches: Matcher)
    ensures CategorizeDocument(text, matches).category == Fallback.category
        <==> forall i :: 0 <= i < |Cues| ==> !matches(Cues[i].pattern, Text.ToLower(text))
    ensures CategorizeDocument(text, matches).category == Fallback.category
        ==> CategorizeDocument(text, matches) == Fallback
  {
    CuesDistinct();
  }

  /** Cue `i` decides the answer exactly when it matches and no earlier cue does. */
  lemma CueWinsIffFirst(text: string, matches: Matcher, i: nat)
    requires i < |Cues|
    ensures CategorizeDocument(text, matches).category == Cues[i].category
        <==> matches(Cues[i].pattern, Text.ToLower(text))
             && forall j :: 0 <= j < i ==> !matches(Cues[j].pattern, Text.ToLower(text))
    ensures CategorizeDocument(text, matches).category == Cues[i].category
        ==> CategorizeDocument(text, matches) == LabelOf(Cues[i])
  {
    CuesDistinct();
    var r := FirstMatch(Cues, Text.ToLower(text), matches);
    if r.Some? && r.value != i {
      assert Cues[r.value].category != Cues[i].category;
    }
  }

  /** The cascade never labels a document "Errors", the category reserved for failed items. */
  lemma NeverErrors(text: string, matches: Matcher)
    ensures CategorizeDocument(text, matches).category != "Errors"
    ensures CategorizeDocument(text, matches).confidence >= 50
  {
  }

  /** The cascade only sees the lowercased text, so the case of the input does not matter. */
  lemma IgnoresCase(text: string, matches: Matcher)
    ensures CategorizeDocument(Text.ToLower(text), matches) == CategorizeDocument(text, matches)
  {
    Text.ToLowerIdempotent(text);
  }
}
