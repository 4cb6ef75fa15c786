/** The MATH dataset's evaluation: choosing one answer per model prediction,
    formatting a problem and its solution into a prompt and a target, and
    exact-match accuracy against the boxed reference answers. */
module MathDataset {
  import opened Wrappers
  import opened Text
  import opened Patterns
  import opened MathNormalize
  import opened MathExtract

  /** The phrase a chain-of-thought answer ends with, just before the answer. */
  const AnswerMarker: string := "The answer is "

  // ---------------------------------------------------------------------
  // Answer cleansing

  /** The text `answer_cleansing` works on: the stripped text after the last
      answer phrase, or the whole prediction when there is none. */
  function WorkingText(pred: string): string
  {
    if Contains(pred, AnswerMarker) then Strip(Last(Split(pred, AnswerMarker))) else pred
  }

  /** The answer `answer_cleansing` picks from one prediction: the normalized
      content of the last `$...$` span, else the last number, else the text itself. */
  function Cleanse(pred: string): string
  {
    var w := WorkingText(pred);
    var spans := FindAll(DollarGroup, w);
    if spans != [] then Normalize(Last(spans))
    else
      var numbers := FindAll(Number, w);
      if numbers != [] then Last(numbers) else w
  }

  /** The body of `answer_cleansing`'s loop: the answer chosen for one prediction. */
  method CleansePrediction(pred: string) returns (chosen: string)
    ensures chosen == Cleanse(pred)
  {
    var text := pred;
    if Contains(text, AnswerMarker) {
      text := Strip(Last(Split(text, AnswerMarker)));
    }
    var finalAnswer := FindAll(DollarGroup, text);
    if finalAnswer != [] {
      chosen := NormalizeFinalAnswer(Last(finalAnswer));
    } else {
      var numbers := FindAll(Number, text);
      chosen := if numbers != [] then Last(numbers) else text;
    }
  }

  /** `answer_cleansing`: one chosen answer per prediction, in order. */
  method AnswerCleansing(preds: seq<string>) returns (predictions: seq<string>)
    ensures |predictions| == |preds|
    ensures forall i :: 0 <= i < |preds| ==> predictions[i] == Cleanse(preds[i])
  {
    predictions := [];
    for i := 0 to |preds|
      invariant |predictions| == i
      invariant forall j :: 0 <= j < i ==> predictions[j] == Cleanse(preds[j])
    {
      var chosen := CleansePrediction(preds[i]);
      ChosenAppend(preds, predictions, chosen);
      predictions := predictions + [chosen];
    }
  }

  /** Appending the answer chosen for the next prediction keeps every answer matched to its prediction. */
  lemma ChosenAppend(preds: seq<string>, predictions: seq<string>, chosen: string)
    requires |predictions| < |preds| && chosen == Cleanse(preds[|predictions|])
    requires forall j :: 0 <= j < |predictions| ==> predictions[j] == Cleanse(preds[j])
    ensures forall j :: 0 <= j <= |predictions| ==> (predictions + [chosen])[j] == Cleanse(preds[j])
  {
  }

  /** After an answer phrase, only the text past its last occurrence counts: the
      working text is that text stripped, and holds no answer phrase of its own. */
  lemma WorkingTextAfterLast(pred: string)
    requires Contains(pred, AnswerMarker)
    ensures exists k: nat ::
              |AnswerMarker| <= k <= |pred| && pred[k - |AnswerMarker|..k] == AnswerMarker &&
              !Contains(pred[k..], AnswerMarker) && WorkingText(pred) == Strip(pred[k..])
  {
    SplitLast(pred, AnswerMarker);
    var k: nat :| LastPieceAt(pred, AnswerMarker, k);
    WorkingTextAt(pred, k);
  }

  /** The working text is what follows the last answer phrase, stripped. */
  lemma WorkingTextAt(pred: string, k: nat)
    requires Contains(pred, AnswerMarker) && LastPieceAt(pred, AnswerMarker, k)
    ensures WorkingText(pred) == Strip(pred[k..])
  {
  }

  /** A prediction with a `$...$` span on one line of its working text is answered
      by the normalized content of such a span, which holds no `=`, space or `$`. */
  lemma CleanseSpan(pred: string)
    requires DollarPair(WorkingText(pred))
    ensures exists x ::
              '$' !in x && '\n' !in x &&
              Contains(WorkingText(pred), "$" + x + "$") && Cleanse(pred) == Normalize(x)
    ensures '=' !in Cleanse(pred) && ' ' !in Cleanse(pred) && '$' !in Cleanse(pred)
  {
    var w := WorkingText(pred);
    DollarGroupsIffPair(w);
    DollarGroupsSound(w);
    var x := Last(FindAll(DollarGroup, w));
    assert x in FindAll(DollarGroup, w);
    NormalizeBans(x);
  }

  /** Without such a span but with a digit, the answer is a number token of the
      working text, left unnormalized; a signed one has a decimal point. */
  lemma CleanseNumber(pred: string)
    requires !DollarPair(WorkingText(pred)) && HasDigit(WorkingText(pred))
    ensures IsNumberToken(Cleanse(pred)) && Contains(WorkingText(pred), Cleanse(pred))
    ensures HasSign(Cleanse(pred)) ==> '.' in Cleanse(pred)
  {
    var w := WorkingText(pred);
    DollarGroupsIffPair(w);
    NumbersIffDigit(w);
    NumbersSound(w);
    var x := Last(FindAll(Number, w));
    assert x in FindAll(Number, w);
  }

  /** When the span search of the working text finds something, the answer is
      the normalized content of the last span it finds: everything else it finds
      lies before that span, and no span starts after it. */
  lemma CleanseSpanLast(pred: string)
    requires FindAll(DollarGroup, WorkingText(pred)) != []
    ensures exists k: nat, x :: LastFoundAt(DollarGroup, WorkingText(pred), k, x) && Cleanse(pred) == Normalize(x)
  {
    var w := WorkingText(pred);
    var x := Last(FindAll(DollarGroup, w));
    assert Cleanse(pred) == Normalize(x);
    FindAllLast(DollarGroup, w);
    var k: nat :| LastMatchAt(DollarGroup, w, k);
    assert LastFoundAt(DollarGroup, w, k, x);
  }

  /** When the span search finds nothing and the number search finds something,
      the answer is the last number found: everything else it finds lies before
      that number, and no number starts after it. */
  lemma CleanseNumberLast(pred: string)
    requires FindAll(DollarGroup, WorkingText(pred)) == [] && FindAll(Number, WorkingText(pred)) != []
    ensures exists k: nat :: LastFoundAt(Number, WorkingText(pred), k, Cleanse(pred))
  {
    var w := WorkingText(pred);
    var x := Last(FindAll(Number, w));
    assert Cleanse(pred) == x;
    FindAllLast(Number, w);
    var k: nat :| LastMatchAt(Number, w, k);
    assert LastFoundAt(Number, w, k, x);
  }

  /** With neither a span nor a digit, the answer is the working text itself. */
  lemma CleanseRaw(pred: string)
    requires !DollarPair(WorkingText(pred)) && !HasDigit(WorkingText(pred))
    ensures Cleanse(pred) == WorkingText(pred)
  {
    DollarGroupsIffPair(WorkingText(pred));
    NumbersIffDigit(WorkingText(pred));
  }

  // ---------------------------------------------------------------------
  // Formatting an instance

  /** `f"{ans}"` for the extracted answer: Python renders a missing one as `None`. */
  function Render(ans: Option<string>): string
  {
    match ans
    case None => "None"
    case Some(a) => a
  }

  /** The prompt built from a problem. */
  function Prompt(problem: string): string
  {
    "Q: " + problem + "\n" + "A:"
  }

  /** The target built from a solution and the answer rendered from it. */
  function Target(solution: string, ans: string): string
  {
    " " + solution + "\n" + AnswerMarker + "$" + ans + "$"
  }

  /** One problem of the dataset, the record `format_instance` rewrites in place. */
  class Instance {
    var problem: string
    var solution: string

    constructor (problem: string, solution: string)
      ensures this.problem == problem && this.solution == solution
    {
      this.problem := problem;
      this.solution := solution;
    }

    /** `format_instance`: rewrites both fields and returns them as source and target. */
    method FormatInstance() returns (source: string, target: string)
      modifies this
      ensures problem == Prompt(old(problem))
      ensures solution == Target(old(solution), Render(Extract(old(solution))))
      ensures source == problem && target == solution
    {
      var ans := ExtractInnerContent(solution);
      problem := "Q: " + problem + "\n" + "A:";
      solution := " " + solution + "\n" + AnswerMarker + "$" + Render(ans) + "$";
      source := problem;
      target := solution;
    }
  }

  /** The answer phrase starts with `T` and holds no other `T`. */
  lemma NoMarkerBefore(q: string, y: string)
    requires 'T' !in q
    ensures forall j :: 0 <= j < |q| ==> !StartsWith((q + AnswerMarker + y)[j..], AnswerMarker)
  {
    forall j | 0 <= j < |q|
      ensures !StartsWith((q + AnswerMarker + y)[j..], AnswerMarker)
    {
      assert (q + AnswerMarker + y)[j..][0] == q[j];
    }
  }

  /** The working text of a prediction ending in the answer phrase and a `T`-free
      tail is that tail, stripped. */
  lemma WorkingTextOfTail(q: string, y: string)
    requires 'T' !in q && 'T' !in y
    ensures WorkingText(q + AnswerMarker + y) == Strip(y)
  {
    var s := q + AnswerMarker + y;
    assert s[|q|..] == AnswerMarker + y;
    assert s[|q| + |AnswerMarker|..] == y;
    StartsWithConcat(AnswerMarker, y);
    ContainsPrefix(s[|q|..], AnswerMarker);
    ContainsInSuffix(s, |q|, AnswerMarker);
    NoMarkerBefore(q, y);
    SplitLastFrom(s, AnswerMarker, |q|);
    if Contains(y, AnswerMarker) {
      ContainsFirst(y, AnswerMarker);
    }
    SplitAbsent(y, AnswerMarker);
  }

  /** Stripping leaves a `$...$` span alone: `$` is not white space. */
  lemma StripSpan(a: string)
    ensures Strip("$" + a + "$") == "$" + a + "$"
  {
    assert '$' !in Whitespace;
  }

  /** A working text that is one `$...$` span on one line is answered by its
      normalized content. */
  lemma CleanseLoneSpan(pred: string, a: string)
    requires '$' !in a && '\n' !in a && WorkingText(pred) == "$" + a + "$"
    ensures Cleanse(pred) == Normalize(a)
  {
    DollarGroupSingle(a);
    assert Last([a]) == a;
  }

  /** Cleansing a target gives back the normalized answer written into it, when
      the solution holds no `T` and the answer no `T`, `$` or line break: the
      answer format of the targets is the one `answer_cleansing` reads. */
  lemma CleanseTarget(solution: string, ans: string)
    requires 'T' !in solution
    requires 'T' !in ans && '$' !in ans && '\n' !in ans
    ensures Cleanse(Target(solution, ans)) == Normalize(ans)
  {
    var q := " " + solution + "\n";
    var y := "$" + ans + "$";
    assert Target(solution, ans) == q + AnswerMarker + y;
    WorkingTextOfTail(q, y);
    StripSpan(ans);
    CleanseLoneSpan(Target(solution, ans), ans);
  }

  // ---------------------------------------------------------------------
  // References and accuracy

  /** `references`: the boxed answer extracted from each solution, unnormalized. */
  function References(solutions: seq<string>): (refs: seq<Option<string>>)
    ensures |refs| == |solutions|
    ensures forall i :: 0 <= i < |solutions| ==>
      (refs[i].None? <==> !Contains(solutions[i], BoxedMarker))
  {
    seq(|solutions|, i requires 0 <= i < |solutions| => Extract(solutions[i]))
  }

  /** An exact-match score as a fraction: matches over total. */
  datatype Ratio = Ratio(num: nat, den: nat)

  /** The number of positions where the prediction equals the reference; a
      missing reference equals no prediction. */
  function MatchCount(preds: seq<string>, refs: seq<Option<string>>): nat
    requires |preds| == |refs|
  {
    if |preds| == 0 then 0
    else
      MatchCount(preds[..|preds| - 1], refs[..|refs| - 1]) +
      (if refs[|refs| - 1] == Some(preds[|preds| - 1]) then 1 else 0)
  }

  /** The positions where the prediction equals the reference. */
  function Matches(preds: seq<string>, refs: seq<Option<string>>): set<nat>
    requires |preds| == |refs|
  {
    set i: nat | i < |preds| && refs[i] == Some(preds[i])
  }

  /** The count is the number of matching positions. */
  lemma {:induction false} MatchCountIsMatches(preds: seq<string>, refs: seq<Option<string>>)
    requires |preds| == |refs|
    ensures MatchCount(preds, refs) == |Matches(preds, refs)|
    decreases |preds|
  {
    if |preds| > 0 {
      var n := |preds| - 1;
      var p, r := preds[..n], refs[..n];
      MatchCountIsMatches(p, r);
      var before := Matches(p, r);
      if refs[n] == Some(preds[n]) {
        assert Matches(preds, refs) == before + {n};
        assert n !in before;
      } else {
        assert Matches(preds, refs) == before;
      }
    }
  }

  /** The exact-match accuracy of predictions against references. */
  function Accuracy(preds: seq<string>, refs: seq<Option<string>>): (acc: Ratio)
    requires |preds| == |refs| > 0
    ensures acc.den == |preds| && acc.num == |Matches(preds, refs)|
  {
    MatchCountIsMatches(preds, refs);
    Ratio(MatchCount(preds, refs), |preds|)
  }

  /** The count is at most the total, reaches it exactly when every position
      matches and is zero exactly when none does. */
  lemma {:induction false} MatchCountBounds(preds: seq<string>, refs: seq<Option<string>>)
    requires |preds| == |refs|
    ensures MatchCount(preds, refs) <= |preds|
    ensures MatchCount(preds, refs) == |preds| <==>
      forall i :: 0 <= i < |preds| ==> refs[i] == Some(preds[i])
    ensures MatchCount(preds, refs) == 0 <==>
      forall i :: 0 <= i < |preds| ==> refs[i] != Some(preds[i])
    decreases |preds|
  {
    if |preds| > 0 {
      var n := |preds| - 1;
      var p, r := preds[..n], refs[..n];
      MatchCountBounds(p, r);
      assert forall i :: 0 <= i < n ==> p[i] == preds[i] && r[i] == refs[i];
    }
  }

  /** The accuracy is a fraction of at most one, reaching one exactly when every
      prediction matches and zero exactly when none does. */
  lemma AccuracyBounds(preds: seq<string>, refs: seq<Option<string>>)
    requires |preds| == |refs| > 0
    ensures Accuracy(preds, refs).num <= Accuracy(preds, refs).den
    ensures Accuracy(preds, refs).num == Accuracy(preds, refs).den <==>
      forall i :: 0 <= i < |preds| ==> refs[i] == Some(preds[i])
    ensures Accuracy(preds, refs).num == 0 <==>
      forall i :: 0 <= i < |preds| ==> refs[i] != Some(preds[i])
  {
    MatchCountBounds(preds, refs);
  }

  /** `calculate_metric`: cleanse the predictions and score them against the references. */
  method CalculateMetric(preds: seq<string>, solutions: seq<string>) returns (acc: Ratio)
    requires |preds| == |solutions| > 0
    ensures acc.den == |preds|
    ensures acc.num == |set i: nat | i < |preds| && Extract(solutions[i]) == Some(Cleanse(preds[i]))|
  {
    var predictions := AnswerCleansing(preds);
    var refs := References(solutions);
    acc := Accuracy(predictions, refs);
    MatchesOfCleansed(preds, solutions, predictions);
  }

  /** The matches of the cleansed predictions are the positions whose chosen answer is the boxed one. */
  lemma MatchesOfCleansed(preds: seq<string>, solutions: seq<string>, predictions: seq<string>)
    requires |preds| == |solutions| == |predictions|
    requires forall i :: 0 <= i < |preds| ==> predictions[i] == Cleanse(preds[i])
    ensures Matches(predictions, References(solutions)) ==
      set i: nat | i < |preds| && Extract(solutions[i]) == Some(Cleanse(preds[i]))
  {
  }
}
