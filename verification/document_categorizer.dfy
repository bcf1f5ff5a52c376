/**
 * The weighted-pattern categorizer (`DocumentCategorizer`): a table of
 * categories, each an ordered list of (pattern, weight) rules; a text scores,
 * per category, the weights of the rules whose pattern it matches; the
 * earliest category with the strictly highest score wins, unless that score is
 * below 3, in which case the text is "Other Documents".
 */
module DocumentCategorizer {
  import opened Common
  import opened Patterns
  import opened Entries
  import Text

  /** Rule weights are positive integers. */
  type Weight = w: int | w > 0 witness 1

  datatype Rule = Rule(pattern: Pattern, weight: Weight)

  /** The `categoryPatterns` object: category name to rule list, keys in insertion order. */
  type Table = seq<Entry<seq<Rule>>>

  const OtherDocuments: string := "Other Documents"

  /** A best score below this leaves the text uncategorized. */
  const MinScore: int := 3

  /** The weight `addCustomPattern` uses when none is given. */
  const DefaultWeight: Weight := 5

  const TaxRules: seq<Rule> := [
    Rule(Regex(@"\bw-?[2-9]\b|\bform\s+w-?[2-9]\b", true), 10),
    Rule(Regex(@"\b1099\b|\b1040\b|\b1098\b|\bschedule [a-e]\b", true), 10),
    Rule(Regex(@"\btax return\b|\btax form\b|\btax statement\b|\btax document\b", true), 8),
    Rule(Regex(@"\birs\b|\btax id\b|\btaxpayer\b|\btax year\b|\btaxable\b", true), 6),
    Rule(Regex(@"\bein\b|\bssn\b|\btax identification\b", true), 6),
    Rule(Regex(@"\btax\b", false), 3)
  ]

  const InvoiceRules: seq<Rule> := [
    Rule(Regex(@"\binvoice\s+number\b|\binvoice\s+#\b|\binvoice\s+no\b|\bdue date\b", true), 8),
    Rule(Regex(@"\bpayment\s+due\b|\bbalance\s+due\b|\binvoice\s+total\b|\bamount\s+due\b", true), 7),
    Rule(Regex(@"\binvoice\b", true), 5),
    Rule(Regex(@"\bbill\b|\bbilling\b", true), 4)
  ]

  const ReceiptRules: seq<Rule> := [
    Rule(Regex(@"\breceipt\s+number\b|\breceipt\s+#\b|\breceipt\s+no\b", true), 8),
    Rule(Regex(@"\bpayment\s+received\b|\btransaction\s+complete\b|\bpayment\s+confirmation\b", true), 7),
    Rule(Regex(@"\breceipt\b|\bpaid\b", true), 5),
    Rule(Regex(@"\bthanks?\s+for\s+your\s+purchase\b|\bpurchase\s+confirmation\b", true), 6)
  ]

  const BankStatementRules: seq<Rule> := [
    Rule(Regex(@"\baccount\s+statement\b|\bbank\s+statement\b|\bmonthly\s+statement\b", true), 9),
    Rule(Regex(@"\bbeginning\s+balance\b|\bending\s+balance\b|\btransaction\s+history\b", true), 8),
    Rule(Regex(@"\bstatement\s+period\b|\baccount\s+summary\b|\bdeposits?\sand\swithdrawals?\b", true), 7),
    Rule(Regex(@"\bdebit\b|\bcredit\b|\binterest\s+rate\b", true), 3),
    Rule(Regex(@"\bstatement\b", true), 4)
  ]

  const PayrollRules: seq<Rule> := [
    Rule(Regex(@"\bpay\s+stub\b|\bpayroll\b|\bearnings\s+statement\b", true), 9),
    Rule(Regex(@"\bgross\s+pay\b|\bnet\s+pay\b|\byear\s+to\s+date\b|\bytd\b", true), 8),
    Rule(Regex(@"\bfederal\s+withholding\b|\bfica\b|\bmedicare\b|\bsocial\s+security\b", true), 7),
    Rule(Regex(@"\bsalary\b|\bwages?\b|\bhourly\s+rate\b|\bpay\s+period\b", true), 6)
  ]

  const ExpenseReportRules: seq<Rule> := [
    Rule(Regex(@"\bexpense\s+report\b|\breimbursement\s+request\b|\btravel\s+expense\b", true), 9),
    Rule(Regex(@"\bmileage\b|\bper\s+diem\b|\breceipts?\s+attached\b", true), 7),
    Rule(Regex(@"\bexpenses?\b|\breimbursement\b", true), 5)
  ]

  /** The built-in rule table, in declaration order. */
  const CategoryPatterns: Table := [
    Entry("Tax Documents", TaxRules),
    Entry("Invoices", InvoiceRules),
    Entry("Receipts", ReceiptRules),
    Entry("Bank Statements", BankStatementRules),
    Entry("Payroll", PayrollRules),
    Entry("Expense Reports", ExpenseReportRules)
  ]

  // ---------------------------------------------------------------- the table

  /** `getCategories`: the category names in key order. */
  function GetCategories(t: Table): seq<string>
  {
    Keys(t)
  }

  /** The table invariant: at least one category, no category without rules, distinct names. */
  predicate WellFormed(t: Table)
  {
    && |t| > 0
    && (forall i :: 0 <= i < |t| ==> |t[i].value| > 0)
    && DistinctKeys(t)
  }

  /** Sum of the weights of a rule list. */
  function TotalWeight(rules: seq<Rule>): int
  {
    if rules == [] then 0 else rules[0].weight + TotalWeight(rules[1..])
  }

  /** `maxPossibleScore`: the largest weight sum of any one category. */
  function MaxPossible(t: Table): int
    requires |t| > 0
  {
    if |t| == 1 then TotalWeight(t[0].value)
    else
      var rest := MaxPossible(t[1..]);
      if TotalWeight(t[0].value) >= rest then TotalWeight(t[0].value) else rest
  }

  /** No category's weight sum exceeds `maxPossibleScore`. */
  lemma {:induction false} MaxPossibleUpper(t: Table, i: nat)
    requires i < |t|
    ensures TotalWeight(t[i].value) <= MaxPossible(t)
  {
    if i > 0 {
      MaxPossibleUpper(t[1..], i - 1);
      assert t[1..][i - 1] == t[i];
    }
  }

  /** Some category's weight sum equals `maxPossibleScore`. */
  lemma {:induction false} MaxPossibleAttained(t: Table)
    requires |t| > 0
    ensures exists i :: 0 <= i < |t| && TotalWeight(t[i].value) == MaxPossible(t)
  {
    if |t| == 1 {
      assert TotalWeight(t[0].value) == MaxPossible(t);
    } else {
      var tail := t[1..];
      MaxPossibleAttained(tail);
      var k :| 0 <= k < |tail| && TotalWeight(tail[k].value) == MaxPossible(tail);
      if TotalWeight(t[0].value) >= MaxPossible(tail) {
        assert TotalWeight(t[0].value) == MaxPossible(t);
      } else {
        assert t[k + 1] == tail[k];
        assert TotalWeight(t[k + 1].value) == MaxPossible(t);
      }
    }
  }

  lemma {:induction false} TotalWeightPositive(rules: seq<Rule>)
    requires |rules| > 0
    ensures TotalWeight(rules) >= rules[0].weight > 0
  {
    if |rules| > 1 {
      TotalWeightPositive(rules[1..]);
    } else {
      assert rules[1..] == [];
    }
  }

  lemma MaxPossiblePositive(t: Table)
    requires WellFormed(t)
    ensures MaxPossible(t) > 0
  {
    MaxPossibleUpper(t, 0);
    TotalWeightPositive(t[0].value);
  }

  lemma TaxWeight() ensures TotalWeight(TaxRules) == 43 { }
  lemma InvoiceWeight() ensures TotalWeight(InvoiceRules) == 24 { }
  lemma ReceiptWeight() ensures TotalWeight(ReceiptRules) == 26 { }
  lemma BankStatementWeight() ensures TotalWeight(BankStatementRules) == 31 { }
  lemma PayrollWeight() ensures TotalWeight(PayrollRules) == 30 { }
  lemma ExpenseReportWeight() ensures TotalWeight(ExpenseReportRules) == 21 { }

  /** The built-in table meets the invariant. */
  lemma CategoryPatternsWellFormed()
    ensures WellFormed(CategoryPatterns)
  {
  }

  /** The weight sum of each built-in category, in table order. */
  lemma CategoryPatternsWeights()
    ensures |CategoryPatterns| == 6 && CategoryPatterns[0].key == "Tax Documents"
    ensures TotalWeight(CategoryPatterns[0].value) == 43
    ensures TotalWeight(CategoryPatterns[1].value) == 24
    ensures TotalWeight(CategoryPatterns[2].value) == 26
    ensures TotalWeight(CategoryPatterns[3].value) == 31
    ensures TotalWeight(CategoryPatterns[4].value) == 30
    ensures TotalWeight(CategoryPatterns[5].value) == 21
  {
    TaxWeight();
    InvoiceWeight();
    ReceiptWeight();
    BankStatementWeight();
    PayrollWeight();
    ExpenseReportWeight();
  }

  /**
   * The built-in table's `maxPossibleScore` is the Tax Documents sum, 43, and
   * no other category's rules add up to more than 31.
   */
  lemma CategoryPatternsMax()
    ensures MaxPossible(CategoryPatterns) == 43
    ensures forall i :: 0 <= i < |CategoryPatterns| && CategoryPatterns[i].key != "Tax Documents" ==>
      TotalWeight(CategoryPatterns[i].value) <= 31
  {
    var t := CategoryPatterns;
    CategoryPatternsWeights();
    forall i | 0 <= i < |t|
      ensures TotalWeight(t[i].value) <= 43
      ensures i != 0 ==> TotalWeight(t[i].value) <= 31
    {
      if i == 0 {
      } else if i == 1 {
      } else if i == 2 {
      } else if i == 3 {
      } else if i == 4 {
      } else {
        assert i == 5;
      }
    }
    MaxPossibleIs(t, 0);
  }

  /** A category whose weight sum no other exceeds gives `maxPossibleScore`. */
  lemma MaxPossibleIs(t: Table, i: nat)
    requires i < |t|
    requires forall j :: 0 <= j < |t| ==> TotalWeight(t[j].value) <= TotalWeight(t[i].value)
    ensures MaxPossible(t) == TotalWeight(t[i].value)
  {
    MaxPossibleUpper(t, i);
    MaxPossibleAttained(t);
  }

  // ---------------------------------------------------------------- scoring

  /** One category's score: every rule whose pattern matches adds its weight, once. */
  function Score(rules: seq<Rule>, text: string, matches: Matcher): int
  {
    if rules == [] then 0
    else (if matches(rules[0].pattern, text) then rules[0].weight else 0) + Score(rules[1..], text, matches)
  }

  /** The rules whose pattern matches, in table order. */
  function Matched(rules: seq<Rule>, text: string, matches: Matcher): (r: seq<Rule>)
    ensures forall x :: x in r <==> x in rules && matches(x.pattern, text)
  {
    if rules == [] then []
    else (if matches(rules[0].pattern, text) then [rules[0]] else []) + Matched(rules[1..], text, matches)
  }

  /** A category's score is the total weight of its matching rules: each matching rule is counted exactly once. */
  lemma {:induction false} ScoreIsMatchedWeight(rules: seq<Rule>, text: string, matches: Matcher)
    ensures Score(rules, text, matches) == TotalWeight(Matched(rules, text, matches))
  {
    if rules != [] {
      ScoreIsMatchedWeight(rules[1..], text, matches);
      var head := if matches(rules[0].pattern, text) then [rules[0]] else [];
      TotalWeightAppend(head, Matched(rules[1..], text, matches));
    }
  }

  lemma {:induction false} TotalWeightAppend(a: seq<Rule>, b: seq<Rule>)
    ensures TotalWeight(a + b) == TotalWeight(a) + TotalWeight(b)
  {
    if a != [] {
      assert (a + b)[1..] == a[1..] + b;
      TotalWeightAppend(a[1..], b);
    } else {
      assert a + b == b;
    }
  }

  /** A score lies between 0 and the category's weight sum; it is 0 iff no rule matches and maximal iff all do. */
  lemma {:induction false} ScoreBounds(rules: seq<Rule>, text: string, matches: Matcher)
    ensures 0 <= Score(rules, text, matches) <= TotalWeight(rules)
    ensures Score(rules, text, matches) == 0 <==> forall k :: 0 <= k < |rules| ==> !matches(rules[k].pattern, text)
    ensures Score(rules, text, matches) == TotalWeight(rules) <==> forall k :: 0 <= k < |rules| ==> matches(rules[k].pattern, text)
  {
    if rules != [] {
      ScoreBounds(rules[1..], text, matches);
      assert forall k :: 1 <= k < |rules| ==> rules[k] == rules[1..][k - 1];
    }
  }

  /** Every category's score, in table order. */
  function Scores(t: Table, text: string, matches: Matcher): (r: seq<int>)
    ensures |r| == |t|
    ensures forall i :: 0 <= i < |t| ==> r[i] == Score(t[i].value, text, matches)
  {
    seq(|t|, i requires 0 <= i < |t| => Score(t[i].value, text, matches))
  }

  // ---------------------------------------------------------------- selection

  /** The state of the search for the best category: the position that last raised the bar, and the bar. */
  datatype Pick = Pick(winner: Option<nat>, highest: int)

  /**
   * The scan over the scores that starts from "Other Documents" at 0 and moves
   * to a category only when its score is strictly higher: the result is the
   * maximum (at least 0) and the EARLIEST category attaining it.
   */
  function Best(scores: seq<int>): (p: Pick)
    ensures p.highest >= 0
    ensures forall j :: 0 <= j < |scores| ==> scores[j] <= p.highest
    ensures p.winner.None? ==> p.highest == 0
    ensures p.winner.Some? ==>
      && p.winner.value < |scores|
      && scores[p.winner.value] == p.highest > 0
      && forall j :: 0 <= j < p.winner.value ==> scores[j] < p.highest
  {
    if scores == [] then Pick(None, 0)
    else
      var last := |scores| - 1;
      var p := Best(scores[..last]);
      assert forall j :: 0 <= j < last ==> scores[..last][j] == scores[j];
      if scores[last] > p.highest then Pick(Some(last), scores[last]) else p
  }

  // ---------------------------------------------------------------- categorize

  /** The argument of `categorize`: a string, or any other JavaScript value. */
  datatype TextInput = NotAString | Str(s: string)

  /** `{category, confidence, score}`; `score` is absent on the early return for empty input. */
  datatype Categorization = Categorization(category: string, confidence: real, score: Option<int>)

  /** `text.toLowerCase().trim()`. */
  function Normalize(s: string): string
  {
    Text.Trim(Text.ToLower(s))
  }

  function MinReal(a: real, b: real): real
  {
    if a <= b then a else b
  }

  /** `Math.min((highestScore / maxPossibleScore) * 100, 100)`, in exact arithmetic. */
  function Confidence(highest: int, maxPossible: int): (c: real)
    requires maxPossible > 0
    ensures 0 <= highest ==> 0.0 <= c <= 100.0
  {
    var ratio := highest as real / maxPossible as real;
    assert 0 <= highest ==> 0.0 <= ratio;
    MinReal(ratio * 100.0, 100.0)
  }

  /** The scores of a normalized text, and the search for the best of them. */
  function Evaluate(t: Table, text: string, matches: Matcher): Pick
  {
    Best(Scores(t, text, matches))
  }

  /** `categorize(text)`. */
  function Categorize(t: Table, input: TextInput, matches: Matcher): (r: Categorization)
    requires WellFormed(t)
    ensures input.NotAString? || input.s == [] ==> r == Categorization(OtherDocuments, 0.0, None)
    ensures input.Str? && input.s != [] ==> r.score.Some? && r.score.value >= 0 && 0.0 <= r.confidence <= 100.0
  {
    if input.NotAString? || input.s == [] then Categorization(OtherDocuments, 0.0, None)
    else
      var p := Evaluate(t, Normalize(input.s), matches);
      MaxPossiblePositive(t);
      var category := if p.highest >= MinScore && p.winner.Some? then t[p.winner.value].key else OtherDocuments;
      Categorization(category, Confidence(p.highest, MaxPossible(t)), Some(p.highest))
  }

  /** The reported score is the highest category score (or 0 if every score is 0). */
  lemma CategorizeScore(t: Table, s: string, matches: Matcher)
    requires WellFormed(t) && s != []
    ensures var r := Categorize(t, Str(s), matches); var sc := Scores(t, Normalize(s), matches);
      && r.score.Some?
      && (forall i :: 0 <= i < |t| ==> sc[i] <= r.score.value)
      && (r.score.value == 0 || r.score.value in sc)
  {
    var p := Evaluate(t, Normalize(s), matches);
    assert Categorize(t, Str(s), matches).score == Some(p.highest);
  }

  /** With a score of at least 3 the answer is the earliest top-scoring category; below 3 it is "Other Documents". */
  lemma CategorizeWinner(t: Table, s: string, matches: Matcher)
    requires WellFormed(t) && s != []
    ensures var r := Categorize(t, Str(s), matches); var sc := Scores(t, Normalize(s), matches);
      && (r.score.value < MinScore ==> r.category == OtherDocuments)
      && (r.score.value >= MinScore ==>
            exists i :: 0 <= i < |t| && r.category == t[i].key && sc[i] == r.score.value
                     && forall j :: 0 <= j < i ==> sc[j] < sc[i])
  {
    var sc := Scores(t, Normalize(s), matches);
    var p := Evaluate(t, Normalize(s), matches);
    var r := Categorize(t, Str(s), matches);
    assert r.score == Some(p.highest);
    if p.highest >= MinScore {
      var w := p.winner.value;
      assert r.category == t[w].key && sc[w] == p.highest;
    }
  }

  /**
   * Tie-break: when the top score (at least 3) is shared, the category that
   * comes first in the table is the answer, and no later one is.
   */
  lemma CategorizeEarliestMaxWins(t: Table, s: string, matches: Matcher, i: nat)
    requires WellFormed(t) && s != []
    requires i < |t|
    requires var sc := Scores(t, Normalize(s), matches);
      && sc[i] >= MinScore
      && (forall j :: 0 <= j < |t| ==> sc[j] <= sc[i])
      && (forall j :: 0 <= j < i ==> sc[j] < sc[i])
    ensures Categorize(t, Str(s), matches).category == t[i].key
    ensures forall j :: i < j < |t| ==> Categorize(t, Str(s), matches).category != t[j].key
  {
    var sc := Scores(t, Normalize(s), matches);
    var p := Evaluate(t, Normalize(s), matches);
    assert p.highest == sc[i];
    assert p.winner == Some(i);
  }

  /**
   * The reported score never exceeds `maxPossibleScore` (given here as `max`),
   * and the confidence is that score's percentage of it, capped at 100.
   */
  lemma CategorizeConfidence(t: Table, s: string, matches: Matcher, max: int)
    requires WellFormed(t) && s != [] && max == MaxPossible(t)
    ensures max > 0
    ensures var r := Categorize(t, Str(s), matches);
      && 0 <= r.score.value <= max
      && r.confidence == Confidence(r.score.value, max)
  {
    var text := Normalize(s);
    var p := Evaluate(t, text, matches);
    var r := Categorize(t, Str(s), matches);
    MaxPossiblePositive(t);
    assert r.score == Some(p.highest);
    if p.winner.Some? {
      var w := p.winner.value;
      ScoreBounds(t[w].value, text, matches);
      MaxPossibleUpper(t, w);
    }
  }

  /** For a score between 0 and the maximum the cap at 100 never binds: the confidence is exactly score * 100 / max. */
  lemma ConfidenceIsPercent(h: int, d: int)
    requires 0 <= h <= d && d > 0
    ensures h as real / d as real * 100.0 <= 100.0
    ensures Confidence(h, d) == h as real * 100.0 / d as real
  {
    var q := h as real / d as real;
    assert q * d as real == h as real;
    assert q <= 1.0;
  }

  /** A text scores 0 exactly when no rule of any category matches it. */
  lemma CategorizeZeroIffNoMatch(t: Table, s: string, matches: Matcher)
    requires WellFormed(t) && s != []
    ensures Categorize(t, Str(s), matches).score == Some(0)
      <==> forall i, k :: 0 <= i < |t| && 0 <= k < |t[i].value| ==> !matches(t[i].value[k].pattern, Normalize(s))
  {
    var text := Normalize(s);
    var sc := Scores(t, text, matches);
    var p := Evaluate(t, text, matches);
    assert Categorize(t, Str(s), matches).score == Some(p.highest);
    forall i | 0 <= i < |t|
      ensures sc[i] == 0 <==> forall k :: 0 <= k < |t[i].value| ==> !matches(t[i].value[k].pattern, text)
    {
      ScoreBounds(t[i].value, text, matches);
    }
    if p.highest == 0 {
      forall i | 0 <= i < |t|
        ensures sc[i] == 0
      {
        ScoreBounds(t[i].value, text, matches);
      }
    }
  }

  /**
   * With the built-in table only "Tax Documents" can reach 100% confidence:
   * the denominator is its weight sum 43, and no other category's rules add up
   * to more than 31.
   */
  lemma OnlyTaxReachesFullConfidence(s: string, matches: Matcher)
    requires s != []
    ensures var r := Categorize(CategoryPatterns, Str(s), matches);
      r.category != "Tax Documents" ==> r.confidence <= 3100.0 / 43.0
  {
    CategoryPatternsWellFormed();
    CategoryPatternsMax();
    ScoreOutsideCategory(CategoryPatterns, s, matches, "Tax Documents", 31);
    CategorizeConfidence(CategoryPatterns, s, matches, 43);
    var r := Categorize(CategoryPatterns, Str(s), matches);
    ConfidenceIsPercent(r.score.value, 43);
  }

  /** If every category but `name` has weight sum at most `bound` (at least 3), any other answer scores at most `bound`. */
  lemma ScoreOutsideCategory(t: Table, s: string, matches: Matcher, name: string, bound: nat)
    requires WellFormed(t) && s != [] && bound >= MinScore
    requires forall i :: 0 <= i < |t| && t[i].key != name ==> TotalWeight(t[i].value) <= bound
    ensures var r := Categorize(t, Str(s), matches);
      r.category != name ==> r.score.value <= bound
  {
    CategorizeWinnerBound(t, s, matches);
  }

  /** A categorized text never scores above its category's weight sum. */
  lemma CategorizeWinnerBound(t: Table, s: string, matches: Matcher)
    requires WellFormed(t) && s != []
    ensures var r := Categorize(t, Str(s), matches);
      r.score.value >= MinScore ==>
        exists i :: 0 <= i < |t| && r.category == t[i].key && r.score.value <= TotalWeight(t[i].value)
  {
    var text := Normalize(s);
    var p := Evaluate(t, text, matches);
    var r := Categorize(t, Str(s), matches);
    assert r.score == Some(p.highest);
    if p.highest >= MinScore {
      var w := p.winner.value;
      ScoreBounds(t[w].value, text, matches);
      assert r.category == t[w].key;
    }
  }

  // ---------------------------------------------------------------- registration

  /** The TypeError `addCustomPattern` throws when `push` is called on an inherited property. */
  datatype RegistrationError = NotAFunction(name: string)

  /**
   * `addCustomPattern(category, pattern, weight = 5)`: append the rule to the
   * category, creating it at the end if absent. A name that is not a category
   * but an inherited property name finds that property truthy, so no list is
   * created and the `push` on it throws.
   */
  function AddCustomPattern(t: Table, name: string, pattern: Pattern, weight: Option<Weight>): (r: Result<Table, RegistrationError>)
    ensures r.Failure? <==> name !in GetCategories(t) && name in InheritedNames
  {
    if name !in Keys(t) && name in InheritedNames then Failure(NotAFunction(name))
    else Success(Upsert(t, name, [], (rules: seq<Rule>) => rules + [Rule(pattern, weight.GetOr(DefaultWeight))]))
  }

  /**
   * Registration fails exactly for a new name that is an inherited property
   * name. Otherwise it appends the rule to the named category (default weight
   * 5), or creates that category, with just this rule, after all others; every
   * other category and the table invariant are left as they were.
   */
  lemma AddCustomPatternEffect(t: Table, name: string, pattern: Pattern, weight: Option<Weight>)
    requires DistinctKeys(t)
    ensures var r := AddCustomPattern(t, name, pattern, weight); var rule := Rule(pattern, weight.GetOr(DefaultWeight));
      && (r.Failure? <==> name !in GetCategories(t) && name in InheritedNames)
      && (r.Success? ==> GetCategories(r.value) == (if name in GetCategories(t) then GetCategories(t) else GetCategories(t) + [name]))
      && (r.Success? ==> forall i :: 0 <= i < |t| && t[i].key != name ==> r.value[i] == t[i])
      && (r.Success? ==> forall i :: 0 <= i < |t| && t[i].key == name ==> r.value[i].value == t[i].value + [rule])
      && (r.Success? && name !in GetCategories(t) ==> r.value[|t|].value == [rule])
      && (r.Success? && WellFormed(t) ==> WellFormed(r.value))
  {
    UpsertEffect(t, name, [], (rules: seq<Rule>) => rules + [Rule(pattern, weight.GetOr(DefaultWeight))]);
  }

  /** Registering a rule changes only its category's score, by the rule's weight when it matches. */
  lemma AddCustomPatternScore(t: Table, name: string, pattern: Pattern, weight: Option<Weight>, text: string, matches: Matcher, i: nat)
    requires DistinctKeys(t) && i < |t|
    ensures var r := AddCustomPattern(t, name, pattern, weight);
      r.Success? ==>
        Score(r.value[i].value, text, matches)
          == Score(t[i].value, text, matches)
             + (if t[i].key == name && matches(pattern, text) then weight.GetOr(DefaultWeight) else 0)
  {
    AddCustomPatternEffect(t, name, pattern, weight);
    if t[i].key == name {
      ScoreAppend(t[i].value, [Rule(pattern, weight.GetOr(DefaultWeight))], text, matches);
    }
  }

  lemma {:induction false} ScoreAppend(a: seq<Rule>, b: seq<Rule>, text: string, matches: Matcher)
    ensures Score(a + b, text, matches) == Score(a, text, matches) + Score(b, text, matches)
  {
    if a != [] {
      assert (a + b)[1..] == a[1..] + b;
      ScoreAppend(a[1..], b, text, matches);
    } else {
      assert a + b == b;
    }
  }

  // ---------------------------------------------------------------- statistics

  /** The two fields `getCategoryStats` reads from each result; either may be missing. */
  datatype Scored = Scored(category: Option<string>, confidence: Option<real>)

  /** `{count, avgConfidence, totalConfidence}` of one category. */
  datatype Stat = Stat(count: nat, avgConfidence: real, totalConfidence: real)

  /** `result.category || 'Other Documents'`: a missing or empty category counts as "Other Documents". */
  function StatKey(r: Scored): string
  {
    if r.category.None? || r.category.value == "" then OtherDocuments else r.category.value
  }

  /** `result.confidence || 0`. */
  function StatConfidence(r: Scored): real
  {
    r.confidence.GetOr(0.0)
  }

  /** `stats[category]` before its first result. */
  const NoResults: Stat := Stat(0, 0.0, 0.0)

  /** Counting one more result of confidence `c`, and recomputing the average. */
  function Tally(st: Stat, c: real): Stat
  {
    var n := st.count + 1;
    var total := st.totalConfidence + c;
    Stat(n, total / n as real, total)
  }

  /**
   * One step of the `forEach`. A category that is not yet a key but is an
   * inherited property name finds that property truthy: no entry is created,
   * and the tally lands on the shared inherited object, not in the result.
   */
  function CountResult(st: seq<Entry<Stat>>, r: Scored): seq<Entry<Stat>>
  {
    if StatKey(r) !in Keys(st) && StatKey(r) in InheritedNames then st
    else Upsert(st, StatKey(r), NoResults, (s: Stat) => Tally(s, StatConfidence(r)))
  }

  lemma CountResultEffect(st: seq<Entry<Stat>>, r: Scored)
    requires DistinctKeys(st)
    ensures var st' := CountResult(st, r); var k := StatKey(r);
      && DistinctKeys(st')
      && Keys(st') == (if k in Keys(st) || k in InheritedNames then Keys(st) else Keys(st) + [k])
      && (forall i :: 0 <= i < |st| ==> st'[i] == if st[i].key == k then Entry(k, Tally(st[i].value, StatConfidence(r))) else st[i])
      && (k !in Keys(st) && k !in InheritedNames ==> st'[|st|] == Entry(k, Tally(NoResults, StatConfidence(r))))
  {
    UpsertEffect(st, StatKey(r), NoResults, (s: Stat) => Tally(s, StatConfidence(r)));
  }

  /** `getCategoryStats(results)`: `results.forEach` over an initially empty object. */
  function GetCategoryStats(results: seq<Scored>): seq<Entry<Stat>>
  {
    if results == [] then []
    else
      CountResult(GetCategoryStats(results[..|results| - 1]), results[|results| - 1])
  }

  /** Results counted under `k`. */
  function CountUnder(results: seq<Scored>, k: string): nat
  {
    if results == [] then 0
    else CountUnder(results[..|results| - 1], k) + (if StatKey(results[|results| - 1]) == k then 1 else 0)
  }

  /** Total confidence of the results counted under `k`. */
  function ConfidenceUnder(results: seq<Scored>, k: string): real
  {
    if results == [] then 0.0
    else ConfidenceUnder(results[..|results| - 1], k) + (if StatKey(results[|results| - 1]) == k then StatConfidence(results[|results| - 1]) else 0.0)
  }

  /** The results that end up counted: those whose category is not an inherited property name. */
  function Counted(results: seq<Scored>): nat
  {
    if results == [] then 0
    else Counted(results[..|results| - 1]) + (if StatKey(results[|results| - 1]) in InheritedNames then 0 else 1)
  }

  function SumCounts(es: seq<Entry<Stat>>): int
  {
    if es == [] then 0 else es[0].value.count + SumCounts(es[1..])
  }

  lemma {:induction false} CountUnderAbsent(results: seq<Scored>, k: string)
    requires forall j :: 0 <= j < |results| ==> StatKey(results[j]) != k
    ensures CountUnder(results, k) == 0 && ConfidenceUnder(results, k) == 0.0
  {
    if results != [] {
      CountUnderAbsent(results[..|results| - 1], k);
    }
  }

  lemma {:induction false} SumCountsUpdate(es: seq<Entry<Stat>>, i: nat, e: Entry<Stat>)
    requires i < |es|
    ensures SumCounts(es[i := e]) == SumCounts(es) - es[i].value.count + e.value.count
  {
    if i > 0 {
      assert es[i := e][1..] == es[1..][i - 1 := e];
      SumCountsUpdate(es[1..], i - 1, e);
    }
  }

  lemma {:induction false} SumCountsAppend(es: seq<Entry<Stat>>, e: Entry<Stat>)
    ensures SumCounts(es + [e]) == SumCounts(es) + e.value.count
  {
    if es != [] {
      assert (es + [e])[1..] == es[1..] + [e];
      SumCountsAppend(es[1..], e);
    } else {
      assert (es + [e])[1..] == [];
    }
  }

  /**
   * The keys are distinct, none is an inherited property name, and every
   * result's category (or "Other Documents") is among them unless it is one.
   */
  lemma {:induction false} GetCategoryStatsKeys(results: seq<Scored>)
    ensures DistinctKeys(GetCategoryStats(results))
    ensures forall j :: 0 <= j < |results| ==>
      StatKey(results[j]) in Keys(GetCategoryStats(results)) || StatKey(results[j]) in InheritedNames
    ensures forall i :: 0 <= i < |GetCategoryStats(results)| ==> GetCategoryStats(results)[i].key !in InheritedNames
  {
    if results != [] {
      var pre := results[..|results| - 1];
      var last := results[|results| - 1];
      var old_ := GetCategoryStats(pre);
      var st := CountResult(old_, last);
      assert GetCategoryStats(results) == st;
      GetCategoryStatsKeys(pre);
      CountResultKeys(old_, last);
      assert results == pre + [last];
      KeysCover(pre, last, StatKey, InheritedNames, Keys(old_), Keys(st));
    }
  }

  /** Counting a result keeps the keys distinct and free of inherited names, and adds its key if it is new and not inherited. */
  lemma CountResultKeys(st: seq<Entry<Stat>>, r: Scored)
    requires DistinctKeys(st)
    requires forall i :: 0 <= i < |st| ==> st[i].key !in InheritedNames
    ensures DistinctKeys(CountResult(st, r))
    ensures forall i :: 0 <= i < |CountResult(st, r)| ==> CountResult(st, r)[i].key !in InheritedNames
    ensures forall k :: k in Keys(st) ==> k in Keys(CountResult(st, r))
    ensures StatKey(r) in Keys(CountResult(st, r)) || StatKey(r) in InheritedNames
  {
    CountResultEffect(st, r);
  }

  /** What an entry of the statistics says about the results counted under its key. */
  predicate StatFaithful(results: seq<Scored>, e: Entry<Stat>)
  {
    && e.value.count == CountUnder(results, e.key) > 0
    && e.value.totalConfidence == ConfidenceUnder(results, e.key)
    && e.value.avgConfidence == e.value.totalConfidence / e.value.count as real
  }

  /**
   * Every result is counted under its category or "Other Documents": each
   * entry's count and total are those of the results counted under its key,
   * and its average is total/count.
   */
  lemma {:induction false} GetCategoryStatsEntries(results: seq<Scored>)
    ensures forall i :: 0 <= i < |GetCategoryStats(results)| ==> StatFaithful(results, GetCategoryStats(results)[i])
  {
    if results != [] {
      var pre := results[..|results| - 1];
      var last := results[|results| - 1];
      var k := StatKey(last);
      var old_ := GetCategoryStats(pre);
      GetCategoryStatsEntries(pre);
      GetCategoryStatsKeys(pre);
      StatsSteps(pre, last, old_);
      assert results == pre + [last];
    }
  }

  lemma StatsSteps(pre: seq<Scored>, last: Scored, old_: seq<Entry<Stat>>)
    requires forall i :: 0 <= i < |old_| ==> StatFaithful(pre, old_[i])
    requires DistinctKeys(old_)
    requires forall j :: 0 <= j < |pre| ==> StatKey(pre[j]) in Keys(old_) || StatKey(pre[j]) in InheritedNames
    ensures forall i :: 0 <= i < |CountResult(old_, last)| ==> StatFaithful(pre + [last], CountResult(old_, last)[i])
  {
    forall i | 0 <= i < |CountResult(old_, last)|
      ensures StatFaithful(pre + [last], CountResult(old_, last)[i])
    {
      StatsStep(pre, last, old_, i);
    }
  }

  lemma UnderAppend(pre: seq<Scored>, last: Scored, k: string)
    ensures CountUnder(pre + [last], k) == CountUnder(pre, k) + (if StatKey(last) == k then 1 else 0)
    ensures ConfidenceUnder(pre + [last], k) == ConfidenceUnder(pre, k) + (if StatKey(last) == k then StatConfidence(last) else 0.0)
  {
    assert (pre + [last])[..|pre|] == pre;
  }

  /** A tally of faithful statistics is faithful to one more result. */
  lemma TallyFaithful(pre: seq<Scored>, last: Scored, e: Entry<Stat>)
    requires StatFaithful(pre, e) && e.key == StatKey(last)
    ensures StatFaithful(pre + [last], Entry(e.key, Tally(e.value, StatConfidence(last))))
  {
    UnderAppend(pre, last, e.key);
  }

  lemma StatsStep(pre: seq<Scored>, last: Scored, old_: seq<Entry<Stat>>, i: nat)
    requires forall i :: 0 <= i < |old_| ==> StatFaithful(pre, old_[i])
    requires DistinctKeys(old_)
    requires forall j :: 0 <= j < |pre| ==> StatKey(pre[j]) in Keys(old_) || StatKey(pre[j]) in InheritedNames
    requires i < |CountResult(old_, last)|
    ensures StatFaithful(pre + [last], CountResult(old_, last)[i])
  {
    var k := StatKey(last);
    var st := CountResult(old_, last);
    CountResultEffect(old_, last);
    if i < |old_| {
      assert StatFaithful(pre, old_[i]);
      if old_[i].key == k {
        TallyFaithful(pre, last, old_[i]);
      } else {
        UnderAppend(pre, last, old_[i].key);
      }
    } else {
      assert k !in Keys(old_) && k !in InheritedNames;
      forall j | 0 <= j < |pre|
        ensures StatKey(pre[j]) != k
      {
        assert StatKey(pre[j]) in Keys(old_) || StatKey(pre[j]) in InheritedNames;
      }
      CountUnderAbsent(pre, k);
      UnderAppend(pre, last, k);
    }
  }

  /** The counts add up to the number of results whose category is not an inherited property name. */
  lemma {:induction false} GetCategoryStatsTotal(results: seq<Scored>)
    ensures SumCounts(GetCategoryStats(results)) == Counted(results)
  {
    if results != [] {
      var pre := results[..|results| - 1];
      var last := results[|results| - 1];
      var k := StatKey(last);
      var c := StatConfidence(last);
      var old_ := GetCategoryStats(pre);
      GetCategoryStatsTotal(pre);
      GetCategoryStatsKeys(pre);
      CountResultEffect(old_, last);
      match Find(old_, k)
      case Some(i) =>
        assert GetCategoryStats(results) == old_[i := Entry(k, Tally(old_[i].value, c))];
        SumCountsUpdate(old_, i, Entry(k, Tally(old_[i].value, c)));
      case None =>
        if k !in InheritedNames {
          assert GetCategoryStats(results) == old_ + [Entry(k, Tally(NoResults, c))];
          SumCountsAppend(old_, Entry(k, Tally(NoResults, c)));
        }
    }
  }

  /** When no category is an inherited property name, every result is counted once. */
  lemma GetCategoryStatsCountsAll(results: seq<Scored>)
    requires forall j :: 0 <= j < |results| ==> StatKey(results[j]) !in InheritedNames
    ensures SumCounts(GetCategoryStats(results)) == |results|
  {
    GetCategoryStatsTotal(results);
    CountedAll(results);
  }

  lemma {:induction false} CountedAll(results: seq<Scored>)
    requires forall j :: 0 <= j < |results| ==> StatKey(results[j]) !in InheritedNames
    ensures Counted(results) == |results|
  {
    if results != [] {
      CountedAll(results[..|results| - 1]);
    }
  }
}
