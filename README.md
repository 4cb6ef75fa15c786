# LLMBox: the MATH answer pipeline and the argument checks, in Dafny

This project models two parts of the LLMBox evaluation toolkit and proves
properties of the model.

**The MATH dataset's answer pipeline** (`llm_box/dataset/math.py`):
- `extract_inner_content` finds the first `\boxed{` of a solution and scans
  forward counting braces. It returns the text up to the brace that closes the
  box, or nothing when there is no box.
- `normalize_final_answer` keeps what follows the last `=`. It then applies the
  `SUBSTITUTIONS` and `REMOVED_EXPRESSIONS` tables, runs seven `re.sub` passes,
  deletes dollars and drops thousands separators.
- `answer_cleansing` picks one answer per model prediction.
- `format_instance` builds the prompt and the target of a problem.
- `calculate_metric` and `references` score the cleansed predictions against
  the boxed answers by exact match.

**The argument checks of the front end** (`llmbox/utils/arguments.py`, with
the model lists of `llmbox/model/enum.py` written in as constants):
- `get_redacted` masks a secret for logging.
- `filter_none_repr` chooses the fields a record shows.
- `ranking_with_options` is a getter and a setter over the ranking type.
- `DatasetArguments.__post_init__` splits a `dataset:subsets` name.
- `ModelArguments.__post_init__` classifies the model and fills in API keys.
- `check_args` applies the checks that span the three argument records.

The modules follow the program's structure:

| file | module | what it holds |
|---|---|---|
| `wrappers.dfy` | `Wrappers` | `Option`, `Result` and `Outcome` (a raise or a normal return) |
| `text.dfy` | `Text` | the Python `str` operations the core uses: `find`, `in`, `replace`, `split`, `join`, `strip`, `rstrip`, `lower`, `isdigit` |
| `patterns.dfy` | `Patterns` | the fixed regular expressions, matched by hand, with `re.sub` and `re.findall` over them |
| `math_normalize.dfy` | `MathNormalize` | `normalize_final_answer` and its tables |
| `math_extract.dfy` | `MathExtract` | `extract_inner_content` |
| `math_dataset.dfy` | `MathDataset` | `answer_cleansing`, `format_instance`, `references`, `calculate_metric` |
| `arguments.dfy` | `Arguments` | `get_redacted`, `filter_none_repr`, the ranking option, the two `__post_init__` methods, `check_args` |

Each loop or state change in the source is a `method`:
- the brace scan;
- the rule-table loops;
- the cleansing loop;
- the `kwargs` loop;
- the field assignments of the two `__post_init__` methods and of `check_args`;
- the in-place rewrite of an instance.

Each such method is proved equal to a specification function. The properties
are proved about that function.

Details of the code that the model keeps, even where they look unintended:
- **References are not normalized.** `references` returns the raw boxed
  content, and `calculate_metric` compares the cleansed predictions with it as
  it is (`math.py:121`, `math.py:124-126`).
- **Fallback answers are not normalized.** The numeric and raw fallbacks of
  `answer_cleansing` are kept as found (`math.py:105-106`).
- **The math-span pass replaces every match.** The `re.sub` at `math.py:56`
  rewrites every line holding two dollars, not only the first
  (`MathSpanLines`). The shorthand passes likewise rewrite every occurrence.
- **Thousands separators need a digit.** The commas are dropped only when a
  digit remains once they are gone, so a text of commas alone is kept
  (`math.py:74`).
- **The second shorthand character is almost anything.** In
  `(frac)([^{])(.)` it is any character but a newline, so it can be `{`.
- **A missing box becomes the word `None`.** `format_instance` renders a
  missing answer as the text `None` (`math.py:111-113`).

## Model

| member | source | states |
|---|---|---|
| Text.Find | llm_box/dataset/math.py:81 | an occurrence is reported at its first position; absence means no position starts the pattern |
| Text.ReplaceAllIsSplitJoin | llm_box/dataset/math.py:50 | `s.replace(p, r)` equals `r.join(s.split(p))` |
| Text.ReplaceAllAbsent | llm_box/dataset/math.py:52 | replacing a pattern that does not occur changes nothing |
| Text.SplitJoin | llm_box/dataset/math.py:47 | joining the pieces of a split with the separator gives back the text |
| Text.SplitsIffContains | llm_box/dataset/math.py:99-100 | a text splits into more than one piece exactly when it contains the separator |
| Text.SplitLast | llm_box/dataset/math.py:100 | the last piece of a split follows an occurrence of the separator and holds none |
| Text.SplitCharAppend | llm_box/dataset/math.py:47 | splitting `a + c + b` on `c` is splitting `a` and `b` apart |
| Text.SplitOfJoin | llmbox/utils/arguments.py:318-319 | splitting a join on its one-character separator gives the pieces back |
| Text.ReplaceCharWithNothing | llm_box/dataset/math.py:71 | `s.replace(c, '')` deletes exactly the occurrences of `c` |
| Text.RemoveChar | llm_box/dataset/math.py:75 | the result holds exactly the characters of the text other than `c` |
| Text.LStripDrops | llm_box/dataset/math.py:100 | `lstrip` drops a prefix of stripped characters and stops at the first other one |
| Text.RStripDrops | llmbox/utils/arguments.py:312 | `rstrip` drops a suffix of stripped characters and stops at the last other one |
| Text.IndexOf | llmbox/utils/arguments.py:318 | the first position of a character, or none exactly when it does not occur |
| Text.LastIndexOf | llm_box/dataset/math.py:61 | the last position of a character, or none exactly when it does not occur |
| Text.ReplaceAll | llm_box/dataset/math.py:50 | every character of the result comes from the text or the replacement |
| Text.Split | llm_box/dataset/math.py:47 | a split has at least one piece |
| Text.LStrip | llm_box/dataset/math.py:100 | stripping never lengthens the text |
| Text.RStrip | llmbox/utils/arguments.py:312 | stripping never lengthens the text |
| Text.RStripThrough | llmbox/utils/arguments.py:312 | `rstrip` goes through a tail of stripped characters as if it were absent |
| Text.Strip | llm_box/dataset/math.py:100 | `strip()` is `lstrip` then `rstrip` of whitespace; `LStripDrops` and `RStripDrops` state what each drops |
| Text.Lower | llmbox/utils/arguments.py:184 | lowercasing keeps the length and maps each letter |
| Text.LowerTwice | llmbox/utils/arguments.py:184 | lowercasing is idempotent |
| Patterns.Sub | llm_box/dataset/math.py:56-70 | every character `re.sub` writes comes from the text or the template |
| Patterns.MatchMathSpan | llm_box/dataset/math.py:56 | a match of `(.*?)(\$)(.*?)(\$)(.*)` is a nonempty prefix whose five groups come from it |
| Patterns.MatchLazy | llm_box/dataset/math.py:58-60 | a match of `(\\text\{)(.*?)(\})` and its like is well formed |
| Patterns.MatchGreedy | llm_box/dataset/math.py:61 | a match of `(\\boxed\{)(.*)(\})` is well formed |
| Patterns.MatchFrac | llm_box/dataset/math.py:69 | a match of `(frac)([^{])(.)` is well formed |
| Patterns.MatchSqrt | llm_box/dataset/math.py:70 | a match of `(sqrt)([^{])` is well formed |
| Patterns.MatchDollar | llm_box/dataset/math.py:97 | a match of `\$(.*?)\$` is well formed |
| Patterns.MatchNumber | llm_box/dataset/math.py:105 | a match of `[-+]?\d*\.\d+\|\d+` is well formed |
| Patterns.NumberLength | llm_box/dataset/math.py:105 | the number match never runs past the text |
| Patterns.MatchNeedsKey | llm_box/dataset/math.py:56-70 | every match of a rewriting pattern holds that pattern's key character |
| Patterns.SubWithoutKey | llm_box/dataset/math.py:56-70 | a text without the key character is left unchanged by the pass |
| Patterns.LazyUnwrapStep | llm_box/dataset/math.py:58-60 | `\text{x}`, `\textbf{x}` and `\overline{x}` become `x`, cut at the first `}` |
| Patterns.BoxedUnwrapStep | llm_box/dataset/math.py:61 | `\boxed{x}` becomes `x`, cut at the last `}` of the line |
| Patterns.FracStep | llm_box/dataset/math.py:69 | `fracab` becomes `frac{a}{b}` when `a` is not `{` and `b` is not a newline |
| Patterns.SqrtStep | llm_box/dataset/math.py:70 | `sqrta` becomes `sqrt{a}` when `a` is not `{` |
| Patterns.FracAfter | llm_box/dataset/math.py:69 | a shorthand `frac` after a character other than `f` gets its braces |
| Patterns.FracBracedUnchanged | llm_box/dataset/math.py:65 | a text whose every `frac` is followed by `{` is unchanged by the frac pass |
| Patterns.SqrtBracedUnchanged | llm_box/dataset/math.py:70 | a text whose every `sqrt` is followed by `{` is unchanged by the sqrt pass |
| Patterns.FracsBracedCons | llm_box/dataset/math.py:69 | putting a character in front keeps every `frac` braced |
| Patterns.FracsBracedAfter | llm_box/dataset/math.py:69 | putting `f`-free text in front keeps every `frac` braced |
| Patterns.FracShorthandExample | llm_box/dataset/math.py:64 | `\fracab` becomes `\frac{a}{b}` |
| Patterns.FracBracedExample | llm_box/dataset/math.py:65 | `\frac{abc}{bef}` is unchanged |
| Patterns.FracShorthandTailExample | llm_box/dataset/math.py:66 | `\fracabc` becomes `\frac{a}{b}c` |
| Patterns.SqrtShorthandExample | llm_box/dataset/math.py:67 | `\sqrta` becomes `\sqrt{a}` |
| Patterns.SqrtShorthandTailExample | llm_box/dataset/math.py:68 | `\sqrtab` becomes `\sqrt{a}b` |
| Patterns.MathSpanByLine | llm_box/dataset/math.py:56 | the math-span match depends on the first line only |
| Patterns.MathSpanTakesLine | llm_box/dataset/math.py:56 | a math-span match consumes the whole first line |
| Patterns.MathSpanNewline | llm_box/dataset/math.py:56 | a newline is copied by the math-span pass |
| Patterns.MathSpanIgnoresNextLines | llm_box/dataset/math.py:56 | what follows the first line does not change the match |
| Patterns.MathSpanLines | llm_box/dataset/math.py:56 | the math-span pass works line by line |
| Patterns.MathSpanWholeLine | llm_box/dataset/math.py:56 | on a line with two dollars the match takes the line and its third group is the text between the first two dollars |
| Patterns.MathSpanAt | llm_box/dataset/math.py:56 | on a line cut at its first two dollars, the match takes the line and its third group is the text between them |
| Patterns.MathSpanFirstSpan | llm_box/dataset/math.py:56 | a line with two dollars becomes its first `$...$` span |
| Patterns.DollarGroupsSound | llm_box/dataset/math.py:97-101 | everything `\$(.*?)\$` finds sat between two dollars of one line |
| Patterns.DollarGroupsIffPair | llm_box/dataset/math.py:101-102 | the dollar search finds something exactly when some line holds two dollars |
| Patterns.DollarGroupSingle | llm_box/dataset/math.py:101 | a lone `$a$` yields `[a]` |
| Patterns.NumberLengthToken | llm_box/dataset/math.py:105 | each number match is a signed decimal or an unsigned integer |
| Patterns.NumberLengthDigit | llm_box/dataset/math.py:105 | a number match holds a digit |
| Patterns.NumbersSound | llm_box/dataset/math.py:105 | every number found is a number token of the text, and a signed one has a decimal point |
| Patterns.NumbersIffDigit | llm_box/dataset/math.py:105-106 | the number search finds something exactly when the text holds a digit |
| Patterns.FindAll | llm_box/dataset/math.py:101-106 | `re.findall` scans left to right, taking a match and resuming past it, or stepping one character; `DollarGroupsSound`, `NumbersSound`, `DollarGroupsIffPair`, `NumbersIffDigit` and `FindAllLast` state what it finds |
| Patterns.FindAllEmpty | llm_box/dataset/math.py:101-106 | a search that finds nothing met no match at any position |
| Patterns.MatchPrefix | llm_box/dataset/math.py:101-106 | cutting the text off after a match leaves the match unchanged, and a position with no match has none in any prefix |
| Patterns.FindAllLast | llm_box/dataset/math.py:103-106 | a nonempty search ends in the match at some position `k`: it equals the search of the text before `k` followed by that match's group, and no position after that match starts another |
| Patterns.DollarHitShape | llm_box/dataset/math.py:97 | a match of `\$(.*?)\$` is its group between two dollars |
| MathNormalize.TablesNonempty | llm_box/dataset/math.py:6-19 | no rule of either table has an empty pattern |
| MathNormalize.Substitute | llm_box/dataset/math.py:49-50 | the rules rewrite in list order, each over the whole text; `SubstituteLoop` computes it, `SubstituteKeepsAbsent`, `SubstituteDeletes` and `SubstituteLeaves` state what it keeps |
| MathNormalize.Remove | llm_box/dataset/math.py:51-52 | the expressions are deleted in list order; `RemoveLoop` computes it, `RemoveKeepsAbsent` and `RemoveLeaves` state what it keeps |
| MathNormalize.ThousandsSeparators | llm_box/dataset/math.py:73-75 | the commas go when only digits remain without them; `ThousandsNumeral` and `CommasOnly` state when |
| MathNormalize.Normalize | llm_box/dataset/math.py:45-77 | the cut at the last `=`, the tables, the seven passes, dollar deletion and the separator step in source order; `NormalizeBans`, `NormalizeLastEquation`, `NormalizeNumeral` and `NormalizeTextDigits` state what it yields |
| MathNormalize.SubstituteLoop | llm_box/dataset/math.py:49-50 | the loop applies the rules in list order, each over the whole text |
| MathNormalize.RemoveLoop | llm_box/dataset/math.py:51-52 | the loop deletes the expressions in list order, each over the whole text |
| MathNormalize.NormalizeFinalAnswer | llm_box/dataset/math.py:45-77 | the method computes `Normalize`, the cut, tables, passes, dollar deletion and separator step in source order |
| MathNormalize.TableStepsRun | llm_box/dataset/math.py:49-52 | the substitutions run before the removals |
| MathNormalize.StructuralStepsRun | llm_box/dataset/math.py:56-70 | the seven passes run in source order |
| MathNormalize.RunKeepsAbsent | llm_box/dataset/math.py:47-75 | steps that cannot write a character keep it out |
| MathNormalize.RunLeaves | llm_box/dataset/math.py:47-75 | steps that each leave a text alone leave it alone together |
| MathNormalize.SubstituteKeepsAbsent | llm_box/dataset/math.py:49-50 | a character no rule writes stays absent |
| MathNormalize.SubstituteDeletes | llm_box/dataset/math.py:49-50 | a character one rule deletes and no later rule writes is absent afterwards |
| MathNormalize.RemoveKeepsAbsent | llm_box/dataset/math.py:51-52 | deleting expressions never brings a character in |
| MathNormalize.SubstituteLeaves | llm_box/dataset/math.py:49-50 | rules whose patterns do not occur leave the text alone |
| MathNormalize.RemoveLeaves | llm_box/dataset/math.py:51-52 | expressions that do not occur leave the text alone |
| MathNormalize.SubstitutionsWrite | llm_box/dataset/math.py:6-10 | no substitution writes `=` or a space, and one deletes every space |
| MathNormalize.StepsKeepOut | llm_box/dataset/math.py:49-75 | past the cut no step writes `=`; past the tables none writes a space; the separator step writes no `$` |
| MathNormalize.CutBansEquals | llm_box/dataset/math.py:47 | the text after the last `=` holds no `=` |
| MathNormalize.NormalizeBansEquals | llm_box/dataset/math.py:45-77 | a normalized answer holds no `=` |
| MathNormalize.NormalizeBansSpaces | llm_box/dataset/math.py:45-77 | a normalized answer holds no space |
| MathNormalize.NormalizeBansDollars | llm_box/dataset/math.py:71-75 | a normalized answer holds no `$` |
| MathNormalize.NormalizeBans | llm_box/dataset/math.py:45-77 | a normalized answer holds no `=`, no space and no `$` |
| MathNormalize.NormalizeLastEquation | llm_box/dataset/math.py:47 | only what follows the last `=` counts: `lhs=rhs` normalizes like `rhs` |
| MathNormalize.TablesForeignToNumerals | llm_box/dataset/math.py:6-19 | in every table pattern, one of the first two characters is neither a digit nor a comma (`,\text{and}` and `,\!` start with a comma) |
| MathNormalize.LastPieceAfterEquals | llm_box/dataset/math.py:47 | the piece after the last `=` of `lhs=rhs` is the piece after the last `=` of `rhs` |
| MathNormalize.NonNumeralAbsent | llm_box/dataset/math.py:49-52 | such a pattern cannot occur in a text of digits and commas |
| MathNormalize.StepLeavesNumeral | llm_box/dataset/math.py:47-71 | every step before the separator step leaves a text of digits and commas alone |
| MathNormalize.NumeralPasses | llm_box/dataset/math.py:49-70 | the tables and the passes leave a text of digits and commas alone |
| MathNormalize.CommasOnly | llm_box/dataset/math.py:74 | a digit-free text of commas is empty without its commas |
| MathNormalize.ThousandsNumeral | llm_box/dataset/math.py:73-75 | on digits and commas the separator step drops the commas exactly when a digit remains |
| MathNormalize.NormalizeNumeral | llm_box/dataset/math.py:45-77 | a text of digits and commas loses its commas when it holds a digit, so `100,000` becomes `100000`; a text of commas alone is kept |
| MathNormalize.NormalizeNumeralIdempotent | llm_box/dataset/math.py:45-77 | normalizing a text of digits and commas twice is normalizing it once |
| MathNormalize.NormalizeDigits | llm_box/dataset/math.py:45-77 | digits are their own normal form |
| MathNormalize.SubstitutionsForeignToTextDigits | llm_box/dataset/math.py:6-10 | no substitution pattern can occur in `\text{x}` for digits `x` |
| MathNormalize.RemovedForeignToTextDigits | llm_box/dataset/math.py:11-19 | no removed expression can occur in `\text{x}` for digits `x` except `\text{}` |
| MathNormalize.EmptyTextAbsent | llm_box/dataset/math.py:17 | `\text{}` does not occur in `\text{x}` for digits `x` |
| MathNormalize.TextDigitsTablesLeave | llm_box/dataset/math.py:49-52 | the tables leave `\text{x}` alone for digits `x` |
| MathNormalize.TextUnwrapFirst | llm_box/dataset/math.py:56-58 | the math-span and `\text` passes take `\text{x}` to `x` |
| MathNormalize.KeyFreePasses | llm_box/dataset/math.py:59-70 | the last five passes leave a text without `}`, `f` and `s` alone |
| MathNormalize.TextUnwrapPasses | llm_box/dataset/math.py:56-70 | the seven passes take `\text{x}` to `x` when `x` holds nothing a pass needs |
| MathNormalize.FinalStepsDigits | llm_box/dataset/math.py:71-75 | dollar deletion and the separator step leave digits alone |
| MathNormalize.NormalizeTextDigits | llm_box/dataset/math.py:58 | `\text{x}` normalizes to `x` for digits `x`, so `\text{3}` becomes `3` |
| MathExtract.ScanEnd | llm_box/dataset/math.py:87-92 | the scan stops at the first position where the open braces close, or at the end |
| MathExtract.ScanBraces | llm_box/dataset/math.py:85-92 | the `while` loop stops where `ScanEnd` does |
| MathExtract.ExtractInnerContent | llm_box/dataset/math.py:79-93 | the method computes `Extract` |
| MathExtract.BoxContent | llm_box/dataset/math.py:87-93 | the content read never runs past the text |
| MathExtract.Extract | llm_box/dataset/math.py:80-83 | the result is missing exactly when `\boxed{` does not occur |
| MathExtract.ContentStart | llm_box/dataset/math.py:81-84 | the content starts within the text, past the first `\boxed{` |
| MathExtract.ScanEndAt | llm_box/dataset/math.py:87-92 | the scan ends at the first balancing position |
| MathExtract.ClosedScan | llm_box/dataset/math.py:87-92 | a scan that closes its brace has read balanced text and then `}` |
| MathExtract.ScanFindsClose | llm_box/dataset/math.py:87-92 | when the braces close at all, the scan stops where they close |
| MathExtract.ContentClosed | llm_box/dataset/math.py:84-93 | closed braces give balanced content followed by the closing `}` |
| MathExtract.ContentFindsBalanced | llm_box/dataset/math.py:84-93 | balanced text followed by `}` is exactly the content read |
| MathExtract.ContentUnclosed | llm_box/dataset/math.py:87-93 | unclosed braces give the rest of the text less its last character |
| MathExtract.ExtractAtStart | llm_box/dataset/math.py:81-93 | the result is the content read past the first `\boxed{` |
| MathExtract.ExtractClosed | llm_box/dataset/math.py:84-93 | a closed box yields balanced content, and the brace after it closes the box |
| MathExtract.ExtractFindsBalanced | llm_box/dataset/math.py:84-93 | balanced text closed by `}` right after the box opening is what is extracted |
| MathExtract.ExtractUnclosed | llm_box/dataset/math.py:87-93 | an unclosed box yields the rest of the solution less its last character, and never fails |
| MathExtract.ExtractBoxed | llm_box/dataset/math.py:79-93 | `\boxed{x}` followed by anything yields `x` for balanced `x` |
| MathExtract.FracBalanced | llm_box/dataset/math.py:85-92 | `\frac{1}{2}` balances its braces |
| MathExtract.ExtractNestedExample | llm_box/dataset/math.py:80 | `\boxed{\frac{1}{2}}` yields `\frac{1}{2}`, counting the nested braces |
| MathDataset.CleansePrediction | llm_box/dataset/math.py:99-106 | the loop body chooses `Cleanse` of the prediction |
| MathDataset.WorkingText | llm_box/dataset/math.py:99-100 | the stripped text after the last answer phrase, or the whole prediction; `WorkingTextAfterLast` states it |
| MathDataset.Cleanse | llm_box/dataset/math.py:101-106 | the normalized last span, else the last number, else the working text; `CleanseSpan`, `CleanseSpanLast`, `CleanseNumber`, `CleanseNumberLast` and `CleanseRaw` state each branch |
| MathDataset.AnswerCleansing | llm_box/dataset/math.py:95-108 | one answer per prediction, in order, each `Cleanse` of its prediction |
| MathDataset.WorkingTextAfterLast | llm_box/dataset/math.py:99-100 | after an answer phrase, the working text is the stripped text past its last occurrence |
| MathDataset.WorkingTextAt | llm_box/dataset/math.py:100 | the working text is what follows the last answer phrase, stripped |
| MathDataset.CleanseSpan | llm_box/dataset/math.py:101-103 | with a `$...$` span, the answer is the normalized content of such a span and holds no `=`, space or `$` |
| MathDataset.CleanseNumber | llm_box/dataset/math.py:104-106 | with no span but a digit, the answer is an unnormalized number token of the working text |
| MathDataset.CleanseSpanLast | llm_box/dataset/math.py:101-103 | when the span search finds something, the answer is the normalized group of its last match: everything else found lies before it and no span starts after it |
| MathDataset.CleanseNumberLast | llm_box/dataset/math.py:104-106 | when the span search finds nothing and the number search finds something, the answer is the last number found: everything else found lies before it and no number starts after it |
| MathDataset.CleanseRaw | llm_box/dataset/math.py:104-106 | with neither a span nor a digit, the answer is the working text |
| MathDataset.WorkingTextOfTail | llm_box/dataset/math.py:99-100 | a prediction ending in the phrase and a `T`-free tail works on that tail, stripped |
| MathDataset.StripSpan | llm_box/dataset/math.py:100 | stripping leaves a `$...$` span alone |
| MathDataset.CleanseLoneSpan | llm_box/dataset/math.py:101-103 | a working text that is one `$a$` span is answered by `Normalize(a)` |
| MathDataset.CleanseTarget | llm_box/dataset/math.py:113 | cleansing a target gives back the normalized answer written into it |
| MathDataset.Render | llm_box/dataset/math.py:113 | the f-string renders a missing answer as `None` and a present one as itself; `FormatInstance` states its use |
| MathDataset.Prompt | llm_box/dataset/math.py:112 | `Q: problem\nA:`; `FormatInstance` states it is the source returned |
| MathDataset.Target | llm_box/dataset/math.py:113 | the solution after a space, then `\nThe answer is $ans$`; `FormatInstance` and `CleanseTarget` state its use |
| MathDataset.Instance.constructor | llm_box/dataset/math.py:110 | an instance holds a problem and a solution |
| MathDataset.Instance.FormatInstance | llm_box/dataset/math.py:110-117 | the problem becomes `Q: problem\nA:`; the solution gains `\nThe answer is $ans$`; both are returned |
| MathDataset.References | llm_box/dataset/math.py:124-126 | one reference per solution, missing exactly when the solution has no box |
| MathDataset.MatchCountIsMatches | llm_box/dataset/math.py:121 | the match count is the number of matching positions |
| MathDataset.Accuracy | llm_box/dataset/math.py:121-122 | the accuracy is the number of matching positions over the total |
| MathDataset.MatchCountBounds | llm_box/dataset/math.py:121-122 | the count is at most the total, equals it exactly when all match and is zero exactly when none does |
| MathDataset.AccuracyBounds | llm_box/dataset/math.py:121-122 | the accuracy lies in [0, 1], is 1 exactly when all match and 0 exactly when none does |
| MathDataset.MatchesOfCleansed | llm_box/dataset/math.py:119-122 | the matches are the positions whose cleansed prediction equals the raw boxed answer |
| MathDataset.CalculateMetric | llm_box/dataset/math.py:119-122 | the score counts the positions where the cleansed prediction equals the unnormalized boxed answer, over the total |
| Arguments.Redacted | llmbox/utils/arguments.py:20-26 | `None` gives `""`; the length is kept; at most 12 become stars; longer keep 8 and 4 with stars between |
| Arguments.RedactedHides | llmbox/utils/arguments.py:23-26 | two secrets of one length that agree on the visible characters redact alike |
| Arguments.RedactedTwice | llmbox/utils/arguments.py:20-26 | redacting a redacted secret changes nothing |
| Arguments.Kept | llmbox/utils/arguments.py:32-34 | the filter never adds fields |
| Arguments.KeptAppend | llmbox/utils/arguments.py:32-34 | filtering keeps the order of the fields |
| Arguments.KeptFields | llmbox/utils/arguments.py:32-34 | a field shows exactly when it is set and not private, with its value redacted when listed |
| Arguments.FilterNoneRepr | llmbox/utils/arguments.py:29-34 | the loop fills `kwargs` with the kept fields |
| Arguments.RankingTypeFor | llmbox/utils/arguments.py:309-314 | the getter reads back the value set; turning options on strips trailing `no_option` characters, all of them and no others |
| Arguments.RankingTypeExamples | llmbox/utils/arguments.py:305-314 | `ppl_no_option` becomes `ppl`; `ppl` and `prob` stay; turning options off gives `ppl_no_option` |
| Arguments.RankingTypeOnTwice | llmbox/utils/arguments.py:311-312 | turning options on twice is turning them on once |
| Arguments.DatasetArguments.RankingWithOptions | llmbox/utils/arguments.py:305-307 | the getter reads whether the ranking type does not end in `no_option`; `SetRankingWithOptions` and `RankingTypeFor` state that it reads back the value set |
| Arguments.DatasetArguments.constructor | llmbox/utils/arguments.py:216-224 | the record starts with no subsets |
| Arguments.DatasetArguments.SetRankingWithOptions | llmbox/utils/arguments.py:309-314 | only the ranking type changes, and the getter reads back the value set |
| Arguments.SubsetNames | llmbox/utils/arguments.py:319 | the set of the comma-separated pieces; `SubsetsOfJoin` states that joined subsets split back to their set |
| Arguments.ParseDatasetName | llmbox/utils/arguments.py:316-319 | no colon keeps the name, one colon splits it, more raise; `DatasetNameCases`, `OneColon`, `TwoColons` and `OneColonJoin` state each case |
| Arguments.OneColon | llmbox/utils/arguments.py:317-319 | a name with one colon splits into the name and its comma-separated subsets |
| Arguments.TwoColons | llmbox/utils/arguments.py:318 | a name with two colons raises on unpacking |
| Arguments.ColonAgain | llmbox/utils/arguments.py:318 | a second colon after the first makes the split fail |
| Arguments.OnlyColon | llmbox/utils/arguments.py:317-319 | a single colon at `k` cuts the name at `k` |
| Arguments.DatasetNameCases | llmbox/utils/arguments.py:316-319 | no colon: unchanged; two or more: failure; exactly one: cut there |
| Arguments.SubsetsOfJoin | llmbox/utils/arguments.py:319 | subsets joined by commas split back to their set |
| Arguments.OneColonJoin | llmbox/utils/arguments.py:317-319 | a name, a colon and comma-joined subsets split back into the name and those subsets |
| Arguments.TwoSubsets | llmbox/utils/arguments.py:317-319 | `name:a,b` gives `name` and `{a, b}` |
| Arguments.SubsetsExample | llmbox/utils/arguments.py:221-222 | `wmt16:en-ro,en-fr` gives `wmt16` and `{en-ro, en-fr}` |
| Arguments.DatasetArguments.PostInit | llmbox/utils/arguments.py:316-319 | the name split is assigned; two colons raise before any assignment |
| Arguments.Classify | llmbox/utils/arguments.py:183-189 | OpenAI iff the lowercased name is an OpenAI model, else Anthropic iff it is an Anthropic model, else Hugging Face |
| Arguments.ClassifyIgnoresCase | llmbox/utils/arguments.py:184-186 | the classification does not see letter case |
| Arguments.ChatModelsAreOpenAI | llmbox/model/enum.py:2-3 | every chat model is an OpenAI model |
| Arguments.OthersInIs | llmbox/utils/arguments.py:386-388 | an argument is gathered exactly when another implementation lists it |
| Arguments.NotInTable | llmbox/utils/arguments.py:390 | an implementation missing from the table has no arguments of its own |
| Arguments.IgnoredArguments | llmbox/utils/arguments.py:385-390 | the arguments another implementation lists less those of the model's own; `IgnoredIs` and `IgnoredByImpl` state them |
| Arguments.IgnoredIs | llmbox/utils/arguments.py:385-390 | cleared exactly when another implementation uses it and the model's own does not |
| Arguments.IgnoredByImpl | llmbox/utils/arguments.py:167-171 | what each implementation clears |
| Arguments.GatherIgnored | llmbox/utils/arguments.py:385-390 | the loop gathers exactly the ignored arguments |
| Arguments.KeyFrom | llmbox/utils/arguments.py:192-193 | a passed key is kept; a missing one is taken from the environment when set there |
| Arguments.ModelArguments.constructor | llmbox/utils/arguments.py:42-77 | the record starts unclassified and without a seed |
| Arguments.ModelArguments.PostInit | llmbox/utils/arguments.py:182-213 | classifies the model, fills keys from the environment, raises the OpenAI or the Anthropic key error for an API model without a key, defaults the tokenizer and turns `vllm` off for API models |
| Arguments.ModelArguments.ClearArgument | llmbox/utils/arguments.py:397 | `setattr(model_args, arg, None)` clears that argument alone |
| Arguments.ModelArguments.ClearArguments | llmbox/utils/arguments.py:392-397 | every ignored argument becomes `None` and nothing else changes |
| Arguments.BatchSizeFor | llmbox/utils/arguments.py:369-378 | the batch size is 1 for a chat or Anthropic model asked for more, else unchanged |
| Arguments.BatchSizeBounds | llmbox/utils/arguments.py:369-378 | clamping never raises the batch size, and changes it only for an API model |
| Arguments.CheckArgs | llmbox/utils/arguments.py:360-397 | copies the seed, clamps the batch size, raises for `vicuna_bench` without an OpenAI key, else clears exactly the ignored arguments |

## Left out

- `Math.__init__` is left out: `load_dataset` reads from the network or disk.
  `references` takes the solutions as a parameter instead.
- The debug `print` at `llm_box/dataset/math.py:57` is left out: it is output only.
- The regular expressions are not compiled by a general engine. Each fixed
  pattern is matched by hand, with `re`'s rules for `.`, `[^{]`, lazy and
  greedy groups.
- Python's Unicode `isdigit`, `\d` and `lower` are modelled on the ASCII range
  only. `strip` uses the full set of characters `str.isspace` accepts.
- Arguments.Classify: lowercases ASCII letters only. Python's `lower` also maps
  other letters, such as the Kelvin sign U+212A to `k`. So `gpt-3.5-turbo-16`
  followed by U+212A is an OpenAI model for `llmbox/utils/arguments.py:184`
  but a Hugging Face model for `Classify`.
- `str.replace` is modelled for a nonempty pattern only: every call in the
  core passes a fixed nonempty literal.
- The accuracy is a (matches, total) pair, not numpy's floating-point `mean`.
- MathDataset.CalculateMetric, MathDataset.Accuracy: require equal, nonzero
  lengths. Numpy's behaviour on mismatched or empty arrays is not modelled.
- MathDataset.Instance.FormatInstance: returns the source and the target as a
  pair instead of a `dict`. The model's instance holds only the two fields that
  `format_instance` reads.
- MathDataset.CleanseTarget: proved only for a solution without `T` and an
  answer without `T`, `$` or a line break. Other texts can contain a second
  answer phrase or span of their own.
- Arguments.FilterNoneRepr: computes the kept `kwargs`. The `repr` f-string
  that formats them is not modelled.
- Arguments.ModelArguments.PostInit: reads `os.environ` from a map parameter.
  The global `openai.api_key` assignment is not modelled.
- The `is_openai_model`, `is_anthropic_model` and `is_huggingface_model`
  helpers are not separate members: they are read off `modelImpl`.
- Arguments.CheckArgs: the logger warnings and the `field.hash`
  passed-on-command-line flag are not modelled; they only choose what gets
  logged. `hasattr` always holds, because every listed argument is a field.
- The argument records hold only the fields the modelled operations read or
  write. The sampling and quantization fields are left out, among others.
- `instance_format` is not modelled: its `unicode_escape` decoding in
  `DatasetArguments.__post_init__` (`llmbox/utils/arguments.py:322`) is a
  codec call.
- `EvaluationArguments.__post_init__` is left out: it only creates directories.
- `parse_argument` is left out: it is command-line parsing, JSON loading and
  logging around `check_args`. So is `passed_in_commandline`.
- `OPENAI_INSTRUCTION_MODELS` in `llmbox/model/enum.py` is not used by the
  modelled code.
- `llmbox/model/load.py` is not part of this model.
