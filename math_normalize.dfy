/** `normalize_final_answer` of the MATH dataset: bringing a final answer to a
    canonical form before it is compared with the reference. */
module MathNormalize {
  import opened Wrappers
  import opened Text
  import opened Patterns

  // ---------------------------------------------------------------------
  // The rewrite tables

  /** The rewrites applied first, in this order: each `(before, after)`
      replaces every `before` by `after`. */
  const Substitutions: seq<(string, string)> := [
    ("an ", ""), ("a ", ""), (".$", "$"), ("\\$", ""), ("\\ ", ""),
    (" ", ""), ("mbox", "text"), (",\\text{and}", ","),
    ("\\text{and}", ","), ("\\text{m}", "\\text{}")
  ]

  /** The units, words and TeX fragments deleted next, in this order. */
  const RemovedExpressions: seq<string> := [
    "square", "ways", "integers", "dollars", "mph", "inches", "ft",
    "hours", "km", "units", "\\ldots", "sue", "points", "feet",
    "minutes", "digits", "cents", "degrees", "cm", "gm", "pounds",
    "meters", "meals", "edges", "students", "childrentickets", "multiples",
    "\\text{s}", "\\text{.}", "\\text{\ns}", "\\text{}^2",
    "\\text{}^3", "\\text{\n}", "\\text{}", "\\mathrm{th}",
    "^\\circ", "^{\\circ}", "\\;", ",\\!", "{,}", "\"", "\\dots"
  ]

  /** The openings of the commands whose argument is kept and whose wrapper is dropped. */
  const TextOpen: string := "\\text{"
  const TextbfOpen: string := "\\textbf{"
  const OverlineOpen: string := "\\overline{"

  predicate RulesNonempty(rules: seq<(string, string)>)
  {
    forall i :: 0 <= i < |rules| ==> |rules[i].0| > 0
  }

  predicate ExpressionsNonempty(exprs: seq<string>)
  {
    forall i :: 0 <= i < |exprs| ==> |exprs[i]| > 0
  }

  lemma TablesNonempty()
    ensures RulesNonempty(Substitutions)
    ensures ExpressionsNonempty(RemovedExpressions)
  {
  }

  // ---------------------------------------------------------------------
  // normalize_final_answer

  /** Applying the rewrites of `rules` one after the other, first rule first. */
  function Substitute(rules: seq<(string, string)>, s: string): string
    requires RulesNonempty(rules)
    decreases |rules|
  {
    if rules == [] then s
    else
      var k := |rules| - 1;
      ReplaceAll(Substitute(rules[..k], s), rules[k].0, rules[k].1)
  }

  /** Deleting each expression of `exprs` in turn, first expression first. */
  function Remove(exprs: seq<string>, s: string): string
    requires ExpressionsNonempty(exprs)
    decreases |exprs|
  {
    if exprs == [] then s
    else
      var k := |exprs| - 1;
      ReplaceAll(Remove(exprs[..k], s), exprs[k], "")
  }

  /** `100,000` becomes `100000`: the commas go when only digits remain without them. */
  function ThousandsSeparators(s: string): string
  {
    var bare := ReplaceAll(s, ",", "");
    if IsDigits(bare) then bare else s
  }

  /** One rewrite of `normalize_final_answer`. */
  datatype Step =
    | CutAtLastEquals          // keep what follows the last `=`
    | SubstituteTable          // the `SUBSTITUTIONS` rewrites
    | RemoveTable              // the `REMOVED_EXPRESSIONS` deletions
    | Regex(p: Pattern)        // one `re.sub` pass
    | DeleteDollars            // `replace('$', '')`
    | DropThousandsSeparators  // `100,000` to `100000`

  predicate StepOk(st: Step)
  {
    st.Regex? ==> ForSub(st.p)
  }

  /** What one step does to the text. */
  function Apply(st: Step, s: string): string
    requires StepOk(st)
  {
    TablesNonempty();
    match st
    case CutAtLastEquals => Last(Split(s, "="))
    case SubstituteTable => Substitute(Substitutions, s)
    case RemoveTable => Remove(RemovedExpressions, s)
    case Regex(p) => Sub(p, s)
    case DeleteDollars => ReplaceAll(s, "$", "")
    case DropThousandsSeparators => ThousandsSeparators(s)
  }

  predicate StepsOk(steps: seq<Step>)
  {
    forall i :: 0 <= i < |steps| ==> StepOk(steps[i])
  }

  /** The text after running `steps` one after the other, first step first. */
  function Run(steps: seq<Step>, s: string): string
    requires StepsOk(steps)
    decreases |steps|
  {
    if steps == [] then s
    else
      var k := |steps| - 1;
      Apply(steps[k], Run(steps[..k], s))
  }

  /** The rewrites by table, in source order. */
  const TableSteps: seq<Step> := [SubstituteTable, RemoveTable]

  /** The seven `re.sub` passes, in source order. */
  const StructuralSteps: seq<Step> := [
    Regex(MathSpan), Regex(LazyUnwrap(TextOpen)), Regex(LazyUnwrap(TextbfOpen)),
    Regex(LazyUnwrap(OverlineOpen)), Regex(BoxedUnwrap), Regex(FracShorthand),
    Regex(SqrtShorthand)
  ]

  lemma NormalizeStepsOk()
    ensures StepsOk(TableSteps) && StepsOk(StructuralSteps)
  {
  }

  /** `normalize_final_answer`: the text after the last `=`, rewritten by the
      tables and the structural passes, with its dollars deleted and its
      thousands separators dropped. */
  function Normalize(finalAnswer: string): string
  {
    NormalizeStepsOk();
    var cut := Last(Split(finalAnswer, "="));
    var passed := Run(StructuralSteps, Run(TableSteps, cut));
    ThousandsSeparators(ReplaceAll(passed, "$", ""))
  }

  // ---------------------------------------------------------------------
  // Running steps

  /** Running one more step runs it last. */
  lemma RunSnoc(steps: seq<Step>, st: Step, s: string)
    requires StepsOk(steps) && StepOk(st)
    ensures StepsOk(steps + [st])
    ensures Run(steps + [st], s) == Apply(st, Run(steps, s))
  {
    assert (steps + [st])[..|steps|] == steps;
  }

  /** A step that cannot write `c` keeps it out. */
  predicate KeepsOut(st: Step, c: char)
  {
    match st
    case SubstituteTable => forall i :: 0 <= i < |Substitutions| ==> c !in Substitutions[i].1
    case Regex(p) => c !in TemplateChars(p)
    case _ => true
  }

  lemma StepKeepsAbsent(st: Step, s: string, c: char)
    requires StepOk(st) && KeepsOut(st, c) && c !in s
    ensures c !in Apply(st, s)
  {
    TablesNonempty();
    match st
    case CutAtLastEquals =>
      SplitPiecesWithin(s, "=");
      assert Last(Split(s, "=")) in Split(s, "=");
    case SubstituteTable =>
      SubstituteKeepsAbsent(Substitutions, s, c);
    case RemoveTable =>
      RemoveKeepsAbsent(RemovedExpressions, s, c);
    case Regex(p) =>
    case DeleteDollars =>
    case DropThousandsSeparators =>
  }

  /** Steps that cannot write `c` keep it out. */
  lemma {:induction false} RunKeepsAbsent(steps: seq<Step>, s: string, c: char)
    requires StepsOk(steps) && c !in s
    requires forall i :: 0 <= i < |steps| ==> KeepsOut(steps[i], c)
    ensures c !in Run(steps, s)
    decreases |steps|
  {
    if steps != [] {
      var k := |steps| - 1;
      RunKeepsAbsent(steps[..k], s, c);
      StepKeepsAbsent(steps[k], Run(steps[..k], s), c);
    }
  }

  /** Steps that each leave a text alone leave it alone together. */
  lemma {:induction false} RunLeaves(steps: seq<Step>, s: string)
    requires StepsOk(steps)
    requires forall i :: 0 <= i < |steps| ==> Apply(steps[i], s) == s
    ensures Run(steps, s) == s
    decreases |steps|
  {
    if steps != [] {
      RunLeaves(steps[..|steps| - 1], s);
    }
  }

  // ---------------------------------------------------------------------
  // normalize_final_answer, as written

  /** The `SUBSTITUTIONS` loop of `normalize_final_answer`, over any table of rules. */
  method SubstituteLoop(rules: seq<(string, string)>, s: string) returns (a: string)
    requires RulesNonempty(rules)
    ensures a == Substitute(rules, s)
  {
    a := s;
    for i := 0 to |rules|
      invariant a == Substitute(rules[..i], s)
    {
      assert rules[..i + 1][..i] == rules[..i];
      a := ReplaceAll(a, rules[i].0, rules[i].1);
    }
    assert rules[..|rules|] == rules;
  }

  /** The `REMOVED_EXPRESSIONS` loop of `normalize_final_answer`, over any list of expressions. */
  method RemoveLoop(exprs: seq<string>, s: string) returns (a: string)
    requires ExpressionsNonempty(exprs)
    ensures a == Remove(exprs, s)
  {
    a := s;
    for i := 0 to |exprs|
      invariant a == Remove(exprs[..i], s)
    {
      assert exprs[..i + 1][..i] == exprs[..i];
      a := ReplaceAll(a, exprs[i], "");
    }
    assert exprs[..|exprs|] == exprs;
  }

  /** Running the first `k` steps runs the first `k - 1` and then step `k - 1`. */
  lemma RunPrefix(steps: seq<Step>, k: nat, s: string)
    requires StepsOk(steps) && 0 < k <= |steps|
    ensures StepsOk(steps[..k]) && StepsOk(steps[..k - 1])
    ensures Run(steps[..k], s) == Apply(steps[k - 1], Run(steps[..k - 1], s))
  {
    assert steps[..k][..k - 1] == steps[..k - 1];
  }

  /** The structural passes, spelled out. */
  lemma StructuralStepsRun(s: string)
    ensures StepsOk(StructuralSteps)
    ensures Run(StructuralSteps, s) ==
      Sub(SqrtShorthand, Sub(FracShorthand, Sub(BoxedUnwrap, Sub(LazyUnwrap(OverlineOpen),
        Sub(LazyUnwrap(TextbfOpen), Sub(LazyUnwrap(TextOpen), Sub(MathSpan, s)))))))
  {
    var steps := StructuralSteps;
    assert steps[..7] == steps;
    RunPrefix(steps, 7, s);
    RunPrefix(steps, 6, s);
    RunPrefix(steps, 5, s);
    RunPrefix(steps, 4, s);
    RunPrefix(steps, 3, s);
    RunPrefix(steps, 2, s);
    RunPrefix(steps, 1, s);
  }

  /** `normalize_final_answer`. */
  method NormalizeFinalAnswer(finalAnswer: string) returns (r: string)
    ensures r == Normalize(finalAnswer)
  {
    NormalizeStepsOk();
    var a := Last(Split(finalAnswer, "="));
    TableStepsRun(a);
    a := SubstituteLoop(Substitutions, a);
    a := RemoveLoop(RemovedExpressions, a);
    StructuralStepsRun(a);
    a := Sub(MathSpan, a);
    a := Sub(LazyUnwrap(TextOpen), a);
    a := Sub(LazyUnwrap(TextbfOpen), a);
    a := Sub(LazyUnwrap(OverlineOpen), a);
    a := Sub(BoxedUnwrap, a);
    a := Sub(FracShorthand, a);
    a := Sub(SqrtShorthand, a);
    a := ReplaceAll(a, "$", "");
    var bare := ReplaceAll(a, ",", "");
    if IsDigits(bare) {
      a := bare;
    }
    r := a;
  }

  // ---------------------------------------------------------------------
  // What normalisation guarantees

  /** A character no rule writes stays absent. */
  lemma {:induction false} SubstituteKeepsAbsent(rules: seq<(string, string)>, s: string, c: char)
    requires RulesNonempty(rules) && c !in s
    requires forall i :: 0 <= i < |rules| ==> c !in rules[i].1
    ensures c !in Substitute(rules, s)
    decreases |rules|
  {
    if rules != [] {
      SubstituteKeepsAbsent(rules[..|rules| - 1], s, c);
    }
  }

  /** A character one rule deletes and no later rule writes is absent afterwards. */
  lemma {:induction false} SubstituteDeletes(rules: seq<(string, string)>, s: string, c: char, k: nat)
    requires RulesNonempty(rules) && k < |rules| && rules[k] == ([c], "")
    requires forall i :: k < i < |rules| ==> c !in rules[i].1
    ensures c !in Substitute(rules, s)
    decreases |rules|
  {
    var last := |rules| - 1;
    var before := Substitute(rules[..last], s);
    if last == k {
      ReplaceCharWithNothing(before, c);
    } else {
      SubstituteDeletes(rules[..last], s, c, k);
    }
  }

  /** Deleting never brings a character in. */
  lemma {:induction false} RemoveKeepsAbsent(exprs: seq<string>, s: string, c: char)
    requires ExpressionsNonempty(exprs) && c !in s
    ensures c !in Remove(exprs, s)
    decreases |exprs|
  {
    if exprs != [] {
      RemoveKeepsAbsent(exprs[..|exprs| - 1], s, c);
    }
  }

  lemma SubstitutionsWrite()
    ensures forall i :: 0 <= i < |Substitutions| ==> '=' !in Substitutions[i].1 && ' ' !in Substitutions[i].1
    ensures Substitutions[5] == (" ", "")
  {
  }

  /** After the cut, no step writes `=`; after the table, none writes a space. */
  lemma StepsKeepOut()
    ensures forall i :: 0 <= i < |TableSteps| ==> KeepsOut(TableSteps[i], '=')
    ensures forall i :: 0 <= i < |StructuralSteps| ==> KeepsOut(StructuralSteps[i], '=')
    ensures forall i :: 0 <= i < |StructuralSteps| ==> KeepsOut(StructuralSteps[i], ' ')
    ensures KeepsOut(RemoveTable, ' ') && KeepsOut(DeleteDollars, '=') && KeepsOut(DeleteDollars, ' ')
    ensures KeepsOut(DropThousandsSeparators, '=') && KeepsOut(DropThousandsSeparators, ' ')
    ensures KeepsOut(DropThousandsSeparators, '$')
  {
    SubstitutionsWrite();
  }

  /** The table steps, spelled out. */
  lemma TableStepsRun(s: string)
    ensures StepsOk(TableSteps) && RulesNonempty(Substitutions) && ExpressionsNonempty(RemovedExpressions)
    ensures Run(TableSteps, s) == Remove(RemovedExpressions, Substitute(Substitutions, s))
  {
    TablesNonempty();
    assert TableSteps[..1] == [SubstituteTable];
    assert [SubstituteTable][..0] == [];
  }

  /** The text after the last `=` holds no `=`. */
  lemma CutBansEquals(x: string)
    ensures '=' !in Last(Split(x, "="))
  {
    SplitCharPieces(x, '=');
    assert "=" == ['='];
    assert Last(Split(x, "=")) == Split(x, "=")[|Split(x, "=")| - 1];
  }

  /** After the structural passes, the final steps keep `c` out when they cannot write it. */
  lemma FinalStepsKeepAbsent(tabled: string, c: char)
    requires StepsOk(StructuralSteps) && c !in tabled
    requires forall i :: 0 <= i < |StructuralSteps| ==> KeepsOut(StructuralSteps[i], c)
    requires c != ','
    ensures c !in ThousandsSeparators(ReplaceAll(Run(StructuralSteps, tabled), "$", ""))
  {
    var d := Run(StructuralSteps, tabled);
    RunKeepsAbsent(StructuralSteps, tabled, c);
    StepKeepsAbsent(DeleteDollars, d, c);
    StepKeepsAbsent(DropThousandsSeparators, ReplaceAll(d, "$", ""), c);
  }

  /** A normalised answer holds no `=`. */
  lemma NormalizeBansEquals(x: string)
    ensures '=' !in Normalize(x)
  {
    NormalizeStepsOk();
    StepsKeepOut();
    var cut := Last(Split(x, "="));
    CutBansEquals(x);
    RunKeepsAbsent(TableSteps, cut, '=');
    FinalStepsKeepAbsent(Run(TableSteps, cut), '=');
  }

  /** A normalised answer holds no space: the table deletes them and no later step writes one. */
  lemma NormalizeBansSpaces(x: string)
    ensures ' ' !in Normalize(x)
  {
    NormalizeStepsOk();
    StepsKeepOut();
    SubstitutionsWrite();
    var cut := Last(Split(x, "="));
    TableStepsRun(cut);
    SubstituteDeletes(Substitutions, cut, ' ', 5);
    RemoveKeepsAbsent(RemovedExpressions, Substitute(Substitutions, cut), ' ');
    FinalStepsKeepAbsent(Run(TableSteps, cut), ' ');
  }

  /** A normalised answer holds no `$`: the last-but-one step deletes them all. */
  lemma NormalizeBansDollars(x: string)
    ensures '$' !in Normalize(x)
  {
    NormalizeStepsOk();
    StepsKeepOut();
    var d := Run(StructuralSteps, Run(TableSteps, Last(Split(x, "="))));
    ReplaceCharWithNothing(d, '$');
    assert "$" == ['$'];
    StepKeepsAbsent(DropThousandsSeparators, ReplaceAll(d, "$", ""), '$');
  }

  /** A normalised answer holds no `=`, no space and no `$`. */
  lemma NormalizeBans(finalAnswer: string)
    ensures '=' !in Normalize(finalAnswer)
    ensures ' ' !in Normalize(finalAnswer)
    ensures '$' !in Normalize(finalAnswer)
  {
    NormalizeBansEquals(finalAnswer);
    NormalizeBansSpaces(finalAnswer);
    NormalizeBansDollars(finalAnswer);
  }

  /** Only what follows the last `=` counts. */
  lemma NormalizeLastEquation(lhs: string, rhs: string)
    ensures Normalize(lhs + "=" + rhs) == Normalize(rhs)
  {
    LastPieceAfterEquals(lhs, rhs);
  }

  /** The piece after the last `=` of `lhs=rhs` is that of `rhs`. */
  lemma LastPieceAfterEquals(lhs: string, rhs: string)
    ensures Last(Split(lhs + "=" + rhs, "=")) == Last(Split(rhs, "="))
  {
    assert "=" == ['='];
    SplitCharAppend(lhs, rhs, '=');
  }

  /** A character of a plain number written with thousands separators. */
  predicate IsNumeralChar(c: char)
  {
    IsDigit(c) || c == ','
  }

  /** Digits and commas only, like `100,000`. */
  predicate NumeralText(s: string)
  {
    forall i :: 0 <= i < |s| ==> IsNumeralChar(s[i])
  }

  /** One of the first two characters of `pat` is neither a digit nor a comma. */
  predicate HasNonNumeral(pat: string)
  {
    (|pat| > 0 && !IsNumeralChar(pat[0])) || (|pat| > 1 && !IsNumeralChar(pat[1]))
  }

  /** A numeral text holds no pattern with a character foreign to numerals. */
  lemma NonNumeralAbsent(s: string, pat: string)
    requires NumeralText(s) && HasNonNumeral(pat)
    ensures !Contains(s, pat)
  {
    var k := if !IsNumeralChar(pat[0]) then 0 else 1;
    NotContainsForeign(s, pat, k);
  }

  /** Every pattern of both tables has a character foreign to numerals among its first two. */
  lemma TablesForeignToNumerals()
    ensures forall i :: 0 <= i < |Substitutions| ==> HasNonNumeral(Substitutions[i].0)
    ensures forall i :: 0 <= i < |RemovedExpressions| ==> HasNonNumeral(RemovedExpressions[i])
  {
    RemovedHeadNonNumeral();
    RemovedMiddleNonNumeral();
    RemovedTailNonNumeral();
  }

  lemma RemovedHeadNonNumeral()
    ensures forall i :: 0 <= i < 14 ==> HasNonNumeral(RemovedExpressions[i])
  {
  }

  lemma RemovedMiddleNonNumeral()
    ensures forall i :: 14 <= i < 28 ==> HasNonNumeral(RemovedExpressions[i])
  {
  }

  lemma RemovedTailNonNumeral()
    ensures forall i :: 28 <= i < 42 ==> HasNonNumeral(RemovedExpressions[i])
  {
  }

  /** Rules whose patterns do not occur leave the text alone. */
  lemma {:induction false} SubstituteLeaves(rules: seq<(string, string)>, s: string)
    requires RulesNonempty(rules)
    requires forall i :: 0 <= i < |rules| ==> !Contains(s, rules[i].0)
    ensures Substitute(rules, s) == s
    decreases |rules|
  {
    if rules != [] {
      var k := |rules| - 1;
      SubstituteLeaves(rules[..k], s);
      ReplaceAllAbsent(s, rules[k].0, rules[k].1);
    }
  }

  /** Expressions that do not occur leave the text alone. */
  lemma {:induction false} RemoveLeaves(exprs: seq<string>, s: string)
    requires ExpressionsNonempty(exprs)
    requires forall i :: 0 <= i < |exprs| ==> !Contains(s, exprs[i])
    ensures Remove(exprs, s) == s
    decreases |exprs|
  {
    if exprs != [] {
      var k := |exprs| - 1;
      RemoveLeaves(exprs[..k], s);
      ReplaceAllAbsent(s, exprs[k], "");
    }
  }

  /** Every step but the last leaves a numeral text alone. */
  lemma StepLeavesNumeral(st: Step, s: string)
    requires StepOk(st) && NumeralText(s) && st != DropThousandsSeparators
    requires st.Regex? ==> KeyChar(st.p) in "$}fs"
    ensures Apply(st, s) == s
  {
    TablesNonempty();
    TablesForeignToNumerals();
    assert forall c :: c in "$}fs=" ==> c !in s;
    match st
    case CutAtLastEquals =>
      ContainsChar(s, '=');
      assert "=" == ['='];
      SplitAbsent(s, "=");
    case SubstituteTable =>
      forall i | 0 <= i < |Substitutions|
        ensures !Contains(s, Substitutions[i].0)
      {
        NonNumeralAbsent(s, Substitutions[i].0);
      }
      SubstituteLeaves(Substitutions, s);
    case RemoveTable =>
      forall i | 0 <= i < |RemovedExpressions|
        ensures !Contains(s, RemovedExpressions[i])
      {
        NonNumeralAbsent(s, RemovedExpressions[i]);
      }
      RemoveLeaves(RemovedExpressions, s);
    case Regex(p) =>
      SubWithoutKey(p, s);
    case DeleteDollars =>
      ContainsChar(s, '$');
      assert "$" == ['$'];
      ReplaceAllAbsent(s, "$", "");
  }

  /** The table steps and the structural passes, and the key characters of the passes. */
  lemma PassKeys()
    ensures forall i :: 0 <= i < |TableSteps| ==> !TableSteps[i].Regex? && TableSteps[i] != DropThousandsSeparators
    ensures forall i :: 0 <= i < |StructuralSteps| ==> StructuralSteps[i].Regex? && ForSub(StructuralSteps[i].p)
    ensures forall i :: 0 <= i < |StructuralSteps| ==> KeyChar(StructuralSteps[i].p) in "$}fs"
  {
  }

  /** Without its commas, a numeral text without digits is empty. */
  lemma CommasOnly(s: string)
    requires NumeralText(s) && !HasDigit(s)
    ensures RemoveChar(s, ',') == []
  {
  }

  /** On a numeral text the separator step drops the commas exactly when a digit remains. */
  lemma ThousandsNumeral(s: string)
    requires NumeralText(s)
    ensures ThousandsSeparators(s) == if HasDigit(s) then RemoveChar(s, ',') else s
  {
    ReplaceCharWithNothing(s, ',');
    var bare := RemoveChar(s, ',');
    assert AllDigits(bare) by {
      forall i | 0 <= i < |bare|
        ensures IsDigit(bare[i])
      {
        assert bare[i] in bare;
        var j :| 0 <= j < |s| && s[j] == bare[i];
      }
    }
    if HasDigit(s) {
      var i :| 0 <= i < |s| && IsDigit(s[i]);
      assert s[i] in bare;
    } else {
      CommasOnly(s);
    }
  }

  /** A number with thousands separators loses them, whatever else normalisation does. */
  lemma NormalizeNumeral(s: string)
    requires NumeralText(s)
    ensures Normalize(s) == if HasDigit(s) then RemoveChar(s, ',') else s
  {
    NormalizeStepsOk();
    StepLeavesNumeral(CutAtLastEquals, s);
    NumeralPasses(s);
    StepLeavesNumeral(DeleteDollars, s);
    ThousandsNumeral(s);
  }

  /** Normalising a numeral text twice is normalising it once. */
  lemma NormalizeNumeralIdempotent(s: string)
    requires NumeralText(s)
    ensures Normalize(Normalize(s)) == Normalize(s)
  {
    NormalizeNumeral(s);
    if HasDigit(s) {
      var r := RemoveChar(s, ',');
      assert NumeralText(r) by {
        forall i | 0 <= i < |r|
          ensures IsNumeralChar(r[i])
        {
          assert r[i] in r;
        }
      }
      var k :| 0 <= k < |s| && IsDigit(s[k]);
      assert s[k] in r;
      var j :| 0 <= j < |r| && r[j] == s[k];
      NormalizeNumeral(r);
    }
  }

  /** Digits are their own normal form. */
  lemma NormalizeDigits(x: string)
    requires IsDigits(x)
    ensures Normalize(x) == x
  {
    assert NumeralText(x);
    assert IsDigit(x[0]);
    NormalizeNumeral(x);
    assert ',' !in x by {
      forall i | 0 <= i < |x|
        ensures x[i] != ','
      {
        assert IsDigit(x[i]);
      }
    }
  }

  /** The table steps and the structural passes leave a numeral text alone. */
  lemma NumeralPasses(s: string)
    requires NumeralText(s)
    ensures StepsOk(TableSteps) && StepsOk(StructuralSteps)
    ensures Run(StructuralSteps, Run(TableSteps, s)) == s
  {
    NormalizeStepsOk();
    PassKeys();
    forall i | 0 <= i < |TableSteps|
      ensures Apply(TableSteps[i], s) == s
    {
      StepLeavesNumeral(TableSteps[i], s);
    }
    RunLeaves(TableSteps, s);
    forall i | 0 <= i < |StructuralSteps|
      ensures Apply(StructuralSteps[i], s) == s
    {
      StepLeavesNumeral(StructuralSteps[i], s);
    }
    RunLeaves(StructuralSteps, s);
  }

  /** A character of `\text{x}` for digits `x`. */
  predicate InTextDigits(c: char)
  {
    c == '\\' || c == 't' || c == 'e' || c == 'x' || c == '{' || c == '}' || IsDigit(c)
  }

  /** A character of `pat` at 0, 1, 6 or 7 cannot occur in `\text{x}` for digits `x`. */
  predicate ForeignToTextDigits(pat: string)
  {
    || (|pat| > 0 && !InTextDigits(pat[0]))
    || (|pat| > 1 && !InTextDigits(pat[1]))
    || (|pat| > 6 && !InTextDigits(pat[6]))
    || (|pat| > 7 && !InTextDigits(pat[7]))
  }

  lemma SubstitutionsForeignToTextDigits()
    ensures forall i :: 0 <= i < |Substitutions| ==> ForeignToTextDigits(Substitutions[i].0)
  {
  }

  /** Every removed expression but `\text{}` has a foreign character, in three parts. */
  lemma RemovedForeignToTextDigits()
    ensures forall i :: 0 <= i < |RemovedExpressions| && i != 33 ==> ForeignToTextDigits(RemovedExpressions[i])
    ensures RemovedExpressions[33] == "\\text{}"
  {
    RemovedHeadForeign();
    RemovedMiddleForeign();
    RemovedTailForeign();
  }

  lemma RemovedHeadForeign()
    ensures forall i :: 0 <= i < 14 ==> ForeignToTextDigits(RemovedExpressions[i])
  {
  }

  lemma RemovedMiddleForeign()
    ensures forall i :: 14 <= i < 28 ==> ForeignToTextDigits(RemovedExpressions[i])
  {
  }

  lemma RemovedTailForeign()
    ensures forall i :: 28 <= i < 42 && i != 33 ==> ForeignToTextDigits(RemovedExpressions[i])
    ensures RemovedExpressions[33] == "\\text{}"
  {
  }

  /** The characters of `\text{x}` for digits `x`. */
  lemma TextDigitsChars(x: string)
    requires IsDigits(x)
    ensures forall c :: c in TextOpen + x + "}" ==> InTextDigits(c)
  {
  }

  /** A pattern with a foreign character does not occur in `\text{x}`. */
  lemma ForeignAbsent(x: string, pat: string)
    requires IsDigits(x) && ForeignToTextDigits(pat)
    ensures !Contains(TextOpen + x + "}", pat)
  {
    TextDigitsChars(x);
    var k := if |pat| > 0 && !InTextDigits(pat[0]) then 0
      else if |pat| > 1 && !InTextDigits(pat[1]) then 1
      else if |pat| > 6 && !InTextDigits(pat[6]) then 6
      else 7;
    NotContainsForeign(TextOpen + x + "}", pat, k);
  }

  /** `\text{}` does not occur in `\text{x}` for digits `x`: its only `{` is
      followed by a digit. */
  lemma EmptyTextAbsent(x: string)
    requires IsDigits(x)
    ensures !Contains(TextOpen + x + "}", "\\text{}")
  {
    var s := TextOpen + x + "}";
    StartsWithSlice(s, "\\text{}");
    assert s[6] == x[0];
    assert s[1..] == "text{" + x + "}";
    NotContainsForeign(s[1..], "\\text{}", 0);
    NotContainsStep(s, "\\text{}");
  }

  /** The table steps leave `\text{x}` alone for digits `x`. */
  lemma TextDigitsTablesLeave(x: string)
    requires IsDigits(x)
    ensures StepsOk(TableSteps)
    ensures Run(TableSteps, TextOpen + x + "}") == TextOpen + x + "}"
  {
    var t := TextOpen + x + "}";
    TablesNonempty();
    SubstitutionsForeignToTextDigits();
    RemovedForeignToTextDigits();
    forall i | 0 <= i < |Substitutions|
      ensures !Contains(t, Substitutions[i].0)
    {
      ForeignAbsent(x, Substitutions[i].0);
    }
    SubstituteLeaves(Substitutions, t);
    forall i | 0 <= i < |RemovedExpressions|
      ensures !Contains(t, RemovedExpressions[i])
    {
      if i == 33 {
        EmptyTextAbsent(x);
      } else {
        ForeignAbsent(x, RemovedExpressions[i]);
      }
    }
    RemoveLeaves(RemovedExpressions, t);
    TableStepsRun(t);
  }

  /** The first two structural passes take `\text{x}` to `x` when `x` holds no
      `$`, `}` or line break. */
  lemma TextUnwrapFirst(x: string)
    requires '$' !in x && '}' !in x && '\n' !in x
    ensures Sub(LazyUnwrap(TextOpen), Sub(MathSpan, TextOpen + x + "}")) == x
  {
    var t := TextOpen + x + "}";
    assert '$' !in t;
    SubWithoutKey(MathSpan, t);
    assert t == TextOpen + x + "}" + "";
    LazyUnwrapStep(TextOpen, x, "");
  }

  /** The last five structural passes leave a text without `}`, `f` and `s` alone. */
  lemma KeyFreePasses(x: string)
    requires '}' !in x && 'f' !in x && 's' !in x
    ensures Sub(SqrtShorthand, Sub(FracShorthand, Sub(BoxedUnwrap, Sub(LazyUnwrap(OverlineOpen),
      Sub(LazyUnwrap(TextbfOpen), x))))) == x
  {
    SubWithoutKey(LazyUnwrap(TextbfOpen), x);
    SubWithoutKey(LazyUnwrap(OverlineOpen), x);
    SubWithoutKey(BoxedUnwrap, x);
    SubWithoutKey(FracShorthand, x);
    SubWithoutKey(SqrtShorthand, x);
  }

  /** The structural passes take `\text{x}` to `x` when `x` holds no character
      that a pass's match needs. */
  lemma TextUnwrapPasses(x: string)
    requires '$' !in x && '}' !in x && '\n' !in x && 'f' !in x && 's' !in x
    ensures StepsOk(StructuralSteps)
    ensures Run(StructuralSteps, TextOpen + x + "}") == x
  {
    StructuralStepsRun(TextOpen + x + "}");
    TextUnwrapFirst(x);
    KeyFreePasses(x);
  }

  /** The last two steps leave digits alone. */
  lemma FinalStepsDigits(x: string)
    requires IsDigits(x)
    ensures ThousandsSeparators(ReplaceAll(x, "$", "")) == x
  {
    ContainsChar(x, '$');
    assert "$" == ['$'];
    ReplaceAllAbsent(x, "$", "");
    ContainsChar(x, ',');
    assert "," == [','];
    ReplaceAllAbsent(x, ",", "");
  }

  /** `\text{x}` normalizes to `x` for digits `x`, so `\text{3}` becomes `3`. */
  lemma NormalizeTextDigits(x: string)
    requires IsDigits(x)
    ensures Normalize(TextOpen + x + "}") == x
  {
    var t := TextOpen + x + "}";
    NormalizeStepsOk();
    TextDigitsChars(x);
    ContainsChar(t, '=');
    assert "=" == ['='];
    SplitAbsent(t, "=");
    TextDigitsTablesLeave(x);
    TextUnwrapPasses(x);
    FinalStepsDigits(x);
  }
}
