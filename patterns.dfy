/** The fixed regular expressions of the MATH answer pipeline, each matched by
    hand with the semantics of Python's `re` module: `.` matches any character
    but a newline, `[^{]` any character but `{` (a newline included), a lazy
    group takes the fewest characters that let the rest match and a greedy one
    the most. `re.sub` and `re.findall` scan left to right, try a match at each
    position, and resume right after a match; none of these patterns can match
    the empty string. */
module Patterns {
  import opened Wrappers
  import opened Text

  /** The opening of a boxed answer: the seven characters `\boxed{`. */
  const BoxedMarker: string := "\\boxed{"

  datatype Pattern =
    | MathSpan                   // (.*?)(\$)(.*?)(\$)(.*)
    | LazyUnwrap(open: string)   // (\\text\{)(.*?)(\}), likewise \textbf and \overline
    | BoxedUnwrap                // (\\boxed\{)(.*)(\})
    | FracShorthand              // (frac)([^{])(.)
    | SqrtShorthand              // (sqrt)([^{])
    | DollarGroup                // \$(.*?)\$
    | Number                     // [-+]?\d*\.\d+|\d+

  /** The number of capturing groups of each pattern. */
  function GroupCount(p: Pattern): nat
  {
    match p
    case MathSpan => 5
    case LazyUnwrap(_) => 3
    case BoxedUnwrap => 3
    case FracShorthand => 3
    case SqrtShorthand => 2
    case DollarGroup => 1
    case Number => 0
  }

  /** The patterns the pipeline rewrites with `re.sub`. */
  predicate ForSub(p: Pattern)
  {
    p.MathSpan? || p.LazyUnwrap? || p.BoxedUnwrap? || p.FracShorthand? || p.SqrtShorthand?
  }

  /** A match at the start of a text: its length and its groups, group 0 being the whole match. */
  datatype Hit = Hit(len: nat, groups: seq<string>)

  function Concat(ss: seq<string>): string
  {
    if ss == [] then [] else ss[0] + Concat(ss[1..])
  }

  lemma ConcatCons(x: string, xs: seq<string>)
    ensures Concat([x] + xs) == x + Concat(xs)
  {
    assert ([x] + xs)[1..] == xs;
  }

  lemma ConcatFive(a: string, b: string, c: string, d: string, e: string)
    ensures Concat([a, b, c, d, e]) == a + (b + (c + (d + e)))
  {
    ConcatCons(e, []);
    assert [e] + [] == [e];
    ConcatCons(d, [e]);
    assert [d] + [e] == [d, e];
    ConcatCons(c, [d, e]);
    assert [c] + [d, e] == [c, d, e];
    ConcatCons(b, [c, d, e]);
    assert [b] + [c, d, e] == [b, c, d, e];
    ConcatCons(a, [b, c, d, e]);
    assert [a] + [b, c, d, e] == [a, b, c, d, e];
  }

  lemma ConcatThree(a: string, b: string, c: string)
    ensures Concat([a, b, c]) == a + (b + c)
  {
    ConcatCons(c, []);
    assert [c] + [] == [c];
    ConcatCons(b, [c]);
    assert [b] + [c] == [b, c];
    ConcatCons(a, [b, c]);
    assert [a] + [b, c] == [a, b, c];
  }

  /** A line cut at two dollars, into the five groups of the math-span pattern. */
  lemma CutAtDollars(l: string, a: nat, b: nat)
    requires a < b < |l| && l[a] == '$' && l[b] == '$'
    ensures Concat([l[..a], "$", l[a + 1..b], "$", l[b + 1..]]) == l
  {
    assert l == l[..a] + ("$" + (l[a + 1..b] + ("$" + l[b + 1..])));
    ConcatFive(l[..a], "$", l[a + 1..b], "$", l[b + 1..]);
  }

  /** The text before the first newline: as far as `.*` can reach. */
  function Line(t: string): (l: string)
    ensures |l| <= |t| && l == t[..|l|] && '\n' !in l
    ensures |l| < |t| ==> t[|l|] == '\n'
  {
    if t == [] || t[0] == '\n' then []
    else
      var l := [t[0]] + Line(t[1..]);
      assert l == t[..|l|];
      l
  }

  /** `.*` stops at the first newline: a newline-free prefix is passed through. */
  lemma {:induction false} LineConcat(a: string, b: string)
    requires '\n' !in a
    ensures Line(a + b) == a + Line(b)
    decreases |a|
  {
    if a != [] {
      assert a[0] in a;
      assert forall c :: c in a[1..] ==> c in a;
      assert (a + b)[0] == a[0];
      assert (a + b)[1..] == a[1..] + b;
      LineConcat(a[1..], b);
      assert Line(a + b) == [a[0]] + Line(a[1..] + b);
      assert a == [a[0]] + a[1..];
    } else {
      assert a + b == b;
    }
  }

  /** The length of the longest run of digits at the start of `t`. */
  function DigitRun(t: string): (n: nat)
    ensures n <= |t| && AllDigits(t[..n]) && (n < |t| ==> !IsDigit(t[n]))
  {
    if |t| > 0 && IsDigit(t[0]) then
      var n := 1 + DigitRun(t[1..]);
      assert t[..n] == [t[0]] + t[1..][..n - 1];
      n
    else 0
  }

  /** A leading `-` or `+`. */
  predicate HasSign(x: string)
  {
    |x| > 0 && (x[0] == '-' || x[0] == '+')
  }

  /** The text after its optional leading sign. */
  function Unsigned(x: string): string
  {
    if HasSign(x) then x[1..] else x
  }

  /** The length of the match of `[-+]?\d*\.\d+|\d+` at the start of `t`, or 0.
      The first alternative is tried first. It needs no backtracking: a shorter
      run of digits than the longest is followed by a digit, never by `.`, and
      without its optional sign it cannot match where a sign stands. */
  function NumberLength(t: string): (n: nat)
    ensures n <= |t|
  {
    var sign := if HasSign(t) then 1 else 0;
    var dot := sign + DigitRun(t[sign..]);
    if dot < |t| && t[dot] == '.' && DigitRun(t[dot + 1..]) > 0 then dot + 1 + DigitRun(t[dot + 1..])
    else DigitRun(t)
  }

  /** A whole match of `\d*\.\d+`. */
  predicate IsDecimal(u: string)
  {
    exists k :: 0 <= k < |u| && u[k] == '.' && AllDigits(u[..k]) && IsDigits(u[k + 1..])
  }

  /** A whole match of `[-+]?\d*\.\d+` or of `\d+`: a signed decimal or an unsigned integer. */
  predicate IsNumberToken(x: string)
  {
    IsDigits(x) || IsDecimal(Unsigned(x))
  }

  /** Some character of `s` is a digit. */
  predicate HasDigit(s: string)
  {
    exists i :: 0 <= i < |s| && IsDigit(s[i])
  }

  /** What a match of `p` at the start of `t` is: a nonempty prefix of `t`, one
      text per group, and nothing in any group that is not in `t`. */
  predicate WellFormed(p: Pattern, t: string, h: Hit)
  {
    WellFormedGroups(GroupCount(p), t, h)
  }

  /** `WellFormed` for a pattern of `n` groups. */
  predicate WellFormedGroups(n: nat, t: string, h: Hit)
  {
    && 0 < h.len <= |t|
    && |h.groups| == n + 1
    && h.groups[0] == t[..h.len]
    && (forall i, c :: 0 <= i < |h.groups| && c in h.groups[i] ==> c in t)
  }

  /** `(.*?)(\$)(.*?)(\$)(.*)`: the first two dollars of the first line, and the
      whole line around them. */
  function MatchMathSpan(t: string): (h: Option<Hit>)
    ensures h.Some? ==> WellFormed(MathSpan, t, h.value)
  {
    var l := Line(t);
    match IndexOf(l, '$')
    case None => None
    case Some(a) =>
      match IndexOf(l[a + 1..], '$')
      case None => None
      case Some(k) =>
        var b := a + 1 + k;
        SpanWellFormed(t, l, a, b);
        Some(SpanHit(l, a, b))
  }

  /** The line `l` cut at dollars `a` and `b`. */
  function SpanHit(l: string, a: nat, b: nat): Hit
    requires a < b < |l|
  {
    Hit(|l|, [l, l[..a], "$", l[a + 1..b], "$", l[b + 1..]])
  }

  /** The line `l` of `t` cut at dollars `a` and `b` is a well-formed math-span hit. */
  lemma SpanWellFormed(t: string, l: string, a: nat, b: nat)
    requires a < b < |l| <= |t| && l == t[..|l|] && l[a] == '$'
    ensures WellFormedGroups(5, t, SpanHit(l, a, b))
  {
    var g := SpanHit(l, a, b).groups;
    assert forall c :: c in l ==> c in t;
    assert forall i :: 0 <= i < |g| ==> forall c :: c in g[i] ==> c in l;
  }

  /** `(open)(.*?)(\})`: `open`, then the shortest run up to a `}` on the same line. */
  function MatchLazy(open: string, t: string): (h: Option<Hit>)
    ensures h.Some? ==> WellFormedGroups(3, t, h.value)
  {
    if !StartsWith(t, open) then None
    else
      StartsWithSlice(t, open);
      var rest := t[|open|..];
      match IndexOf(Line(rest), '}')
      case None => None
      case Some(k) =>
        var n := |open| + k + 1;
        var g := [t[..n], open, rest[..k], "}"];
        assert t[..n] == open + (rest[..k] + "}");
        assert forall i, c :: 0 <= i < |g| && c in g[i] ==> c in t[..n];
        Some(Hit(n, g))
  }

  /** `(open)(.*)(\})`: `open`, then the longest run up to a `}` on the same line;
      the boxed-answer pattern opens with `BoxedMarker`. */
  function MatchGreedy(open: string, t: string): (h: Option<Hit>)
    ensures h.Some? ==> WellFormedGroups(3, t, h.value)
  {
    if !StartsWith(t, open) then None
    else
      StartsWithSlice(t, open);
      var rest := t[|open|..];
      match LastIndexOf(Line(rest), '}')
      case None => None
      case Some(k) =>
        var n := |open| + k + 1;
        var g := [t[..n], open, rest[..k], "}"];
        assert t[..n] == open + (rest[..k] + "}");
        assert forall i, c :: 0 <= i < |g| && c in g[i] ==> c in t[..n];
        Some(Hit(n, g))
  }

  /** `(frac)([^{])(.)`: `frac`, a character other than `{`, and one that is not a newline. */
  function MatchFrac(t: string): (h: Option<Hit>)
    ensures h.Some? ==> WellFormed(FracShorthand, t, h.value)
  {
    if |t| >= 6 && StartsWith(t, "frac") && t[4] != '{' && t[5] != '\n' then
      StartsWithSlice(t, "frac");
      var g := [t[..6], "frac", [t[4]], [t[5]]];
      assert t[..6] == "frac" + ([t[4]] + [t[5]]);
      assert forall i, c :: 0 <= i < |g| && c in g[i] ==> c in t[..6];
      Some(Hit(6, g))
    else None
  }

  /** `(sqrt)([^{])`: `sqrt` and a character other than `{`. */
  function MatchSqrt(t: string): (h: Option<Hit>)
    ensures h.Some? ==> WellFormed(SqrtShorthand, t, h.value)
  {
    if |t| >= 5 && StartsWith(t, "sqrt") && t[4] != '{' then
      StartsWithSlice(t, "sqrt");
      var g := [t[..5], "sqrt", [t[4]]];
      assert t[..5] == "sqrt" + [t[4]];
      assert forall i, c :: 0 <= i < |g| && c in g[i] ==> c in t[..5];
      Some(Hit(5, g))
    else None
  }

  /** `\$(.*?)\$`: a dollar and the shortest run up to the next dollar on the same line. */
  function MatchDollar(t: string): (h: Option<Hit>)
    ensures h.Some? ==> WellFormed(DollarGroup, t, h.value)
  {
    if |t| == 0 || t[0] != '$' then None
    else
      match IndexOf(Line(t[1..]), '$')
      case None => None
      case Some(k) =>
        assert forall c :: c in t[1..k + 1] ==> c in t;
        Some(Hit(k + 2, [t[..k + 2], t[1..k + 1]]))
  }

  /** `[-+]?\d*\.\d+|\d+`. */
  function MatchNumber(t: string): (h: Option<Hit>)
    ensures h.Some? ==> WellFormed(Number, t, h.value)
  {
    var n := NumberLength(t);
    if n == 0 then None
    else
      assert forall c :: c in t[..n] ==> c in t;
      Some(Hit(n, [t[..n]]))
  }

  /** Matching `p` at the start of `t`, as Python's `re.match` does. */
  function MatchAt(p: Pattern, t: string): (h: Option<Hit>)
    ensures h.Some? ==> WellFormed(p, t, h.value)
  {
    match p
    case MathSpan => MatchMathSpan(t)
    case LazyUnwrap(open) => MatchLazy(open, t)
    case BoxedUnwrap => MatchGreedy(BoxedMarker, t)
    case FracShorthand => MatchFrac(t)
    case SqrtShorthand => MatchSqrt(t)
    case DollarGroup => MatchDollar(t)
    case Number => MatchNumber(t)
  }

  /** Each substituting pattern's replacement template, filled with the groups of a match. */
  function Expand(p: Pattern, g: seq<string>): string
    requires ForSub(p) && |g| == GroupCount(p) + 1
  {
    match p
    case MathSpan => "$" + g[3] + "$"          // '$\\3$'
    case LazyUnwrap(_) => g[2]                  // '\\2'
    case BoxedUnwrap => g[2]                    // '\\2'
    case FracShorthand => "frac{" + g[2] + "}{" + g[3] + "}"   // 'frac{\\2}{\\3}'
    case SqrtShorthand => "sqrt{" + g[2] + "}"  // 'sqrt{\\2}'
  }

  /** The characters a replacement template adds of its own. */
  function TemplateChars(p: Pattern): string
  {
    match p
    case MathSpan => "$"
    case FracShorthand => "frac{}"
    case SqrtShorthand => "sqrt{}"
    case _ => ""
  }

  /** `re.sub(p, template, s)`: scanning left to right, each match is replaced by
      its expanded template and the scan resumes after it; where nothing matches
      one character is copied and the scan moves on by one. */
  function Sub(p: Pattern, s: string): (r: string)
    requires ForSub(p)
    ensures forall c :: c in r ==> c in s || c in TemplateChars(p)
    decreases |s|
  {
    if s == [] then []
    else
      match MatchAt(p, s)
      case Some(h) =>
        var rest := Sub(p, s[h.len..]);
        assert forall c :: c in s[h.len..] ==> c in s;
        Expand(p, h.groups) + rest
      case None =>
        var rest := Sub(p, s[1..]);
        assert forall c :: c in s[1..] ==> c in s;
        [s[0]] + rest
  }

  /** `re.findall(p, s)` for a pattern with at most one group: the group's text of
      each match, or the whole match when there is no group. */
  function FindAll(p: Pattern, s: string): (r: seq<string>)
    requires GroupCount(p) <= 1
    decreases |s|
  {
    if s == [] then []
    else
      match MatchAt(p, s)
      case Some(h) => [h.groups[GroupCount(p)]] + FindAll(p, s[h.len..])
      case None => FindAll(p, s[1..])
  }

  // ---------------------------------------------------------------------
  // What each substitution does

  /** A character every match of a substituting pattern contains. */
  function KeyChar(p: Pattern): char
    requires ForSub(p)
  {
    match p
    case MathSpan => '$'
    case LazyUnwrap(_) => '}'
    case BoxedUnwrap => '}'
    case FracShorthand => 'f'
    case SqrtShorthand => 's'
  }

  lemma MatchNeedsKey(p: Pattern, t: string)
    requires ForSub(p) && MatchAt(p, t).Some?
    ensures KeyChar(p) in t
  {
    var g := MatchAt(p, t).value.groups;
    match p
    case MathSpan => assert '$' in g[2];
    case LazyUnwrap(_) => assert '}' in g[3];
    case BoxedUnwrap => assert '}' in g[3];
    case FracShorthand => assert 'f' in g[1];
    case SqrtShorthand => assert 's' in g[1];
  }

  /** A text without the pattern's key character is left as it is. */
  lemma {:induction false} SubWithoutKey(p: Pattern, s: string)
    requires ForSub(p) && KeyChar(p) !in s
    ensures Sub(p, s) == s
    decreases |s|
  {
    if s != [] {
      if MatchAt(p, s).Some? {
        MatchNeedsKey(p, s);
      }
      assert forall c :: c in s[1..] ==> c in s;
      SubWithoutKey(p, s[1..]);
      assert s == [s[0]] + s[1..];
    }
  }

  /** `re.sub` where a match starts. */
  lemma SubAtMatch(p: Pattern, s: string, h: Hit)
    requires ForSub(p) && MatchAt(p, s) == Some(h)
    ensures Sub(p, s) == Expand(p, h.groups) + Sub(p, s[h.len..])
  {
  }

  /** `re.sub` where no match starts. */
  lemma SubAtNoMatch(p: Pattern, s: string)
    requires ForSub(p) && s != [] && MatchAt(p, s).None?
    ensures Sub(p, s) == [s[0]] + Sub(p, s[1..])
  {
  }

  /** The `}` that ends `x}` on a line is at `|x|` when `x` holds none. */
  lemma FirstCloseAfter(x: string, y: string)
    requires '}' !in x && '\n' !in x
    ensures IndexOf(Line(x + "}" + y), '}') == Some(|x|)
  {
    LineConcat(x + "}", y);
    var l := Line(x + "}" + y);
    assert l == x + "}" + Line(y);
    assert l[..|x|] == x;
    IndexOfIs(l, '}', |x|);
  }

  /** `open` glued to `rest` starts with `open`, and `rest` follows it. */
  lemma OpenedBy(open: string, x: string, y: string)
    ensures StartsWith(open + x + "}" + y, open)
    ensures (open + x + "}" + y)[|open|..] == x + "}" + y
    ensures (x + "}" + y)[..|x|] == x
  {
    assert open + x + "}" + y == open + (x + "}" + y);
    StartsWithConcat(open, x + "}" + y);
  }

  /** The lazy hit once the `}` that ends it is found at `k` past `open`. */
  lemma LazyHit(open: string, t: string, k: nat)
    requires StartsWith(t, open) && |open| <= |t|
    requires IndexOf(Line(t[|open|..]), '}') == Some(k)
    ensures MatchLazy(open, t).Some?
    ensures MatchLazy(open, t).value.len == |open| + k + 1
    ensures MatchLazy(open, t).value.groups[2] == t[|open|..][..k]
  {
  }

  lemma LazyMatch(open: string, x: string, y: string)
    requires '}' !in x && '\n' !in x
    ensures MatchLazy(open, open + x + "}" + y).Some?
    ensures MatchLazy(open, open + x + "}" + y).value.len == |open| + |x| + 1
    ensures MatchLazy(open, open + x + "}" + y).value.groups[2] == x
  {
    OpenedBy(open, x, y);
    FirstCloseAfter(x, y);
    LazyHit(open, open + x + "}" + y, |x|);
  }

  /** `\text{x}` and its like become `x`: the lazy group ends at the first `}`. */
  lemma LazyUnwrapStep(open: string, x: string, y: string)
    requires '}' !in x && '\n' !in x
    ensures Sub(LazyUnwrap(open), open + x + "}" + y) == x + Sub(LazyUnwrap(open), y)
  {
    var t := open + x + "}" + y;
    LazyMatch(open, x, y);
    var h := MatchAt(LazyUnwrap(open), t).value;
    SubAtMatch(LazyUnwrap(open), t, h);
    assert t[|open| + |x| + 1..] == y;
  }

  /** The last `}` of the line `x}y` ends `x` when `y`'s line holds none. */
  lemma LastCloseAfter(x: string, y: string)
    requires '\n' !in x && '}' !in Line(y)
    ensures LastIndexOf(Line(x + "}" + y), '}') == Some(|x|)
  {
    LineConcat(x + "}", y);
    var l := Line(x + "}" + y);
    assert l == x + "}" + Line(y);
    assert l[|x| + 1..] == Line(y);
    LastIndexOfIs(l, '}', |x|);
  }

  /** The greedy hit once the last `}` of the line is found at `k` past `open`. */
  lemma GreedyHit(open: string, t: string, k: nat)
    requires StartsWith(t, open) && |open| <= |t|
    requires LastIndexOf(Line(t[|open|..]), '}') == Some(k)
    ensures MatchGreedy(open, t).Some?
    ensures MatchGreedy(open, t).value.len == |open| + k + 1
    ensures MatchGreedy(open, t).value.groups[2] == t[|open|..][..k]
  {
  }

  lemma GreedyMatch(open: string, x: string, y: string)
    requires '\n' !in x && '}' !in Line(y)
    ensures MatchGreedy(open, open + x + "}" + y).Some?
    ensures MatchGreedy(open, open + x + "}" + y).value.len == |open| + |x| + 1
    ensures MatchGreedy(open, open + x + "}" + y).value.groups[2] == x
  {
    OpenedBy(open, x, y);
    LastCloseAfter(x, y);
    GreedyHit(open, open + x + "}" + y, |x|);
  }

  /** `\boxed{x}` becomes `x`: the greedy group runs to the last `}` of the line. */
  lemma BoxedUnwrapStep(x: string, y: string)
    requires '\n' !in x && '}' !in Line(y)
    ensures Sub(BoxedUnwrap, BoxedMarker + x + "}" + y) == x + Sub(BoxedUnwrap, y)
  {
    var t := BoxedMarker + x + "}" + y;
    GreedyMatch(BoxedMarker, x, y);
    var h := MatchAt(BoxedUnwrap, t).value;
    SubAtMatch(BoxedUnwrap, t, h);
    assert t[|BoxedMarker| + |x| + 1..] == y;
  }

  /** `fracab` becomes `frac{a}{b}` when `a` is not an opening brace. */
  lemma FracStep(a: char, b: char, y: string)
    requires a != '{' && b != '\n'
    ensures Sub(FracShorthand, "frac" + [a, b] + y) == "frac{" + [a] + "}{" + [b] + "}" + Sub(FracShorthand, y)
  {
    var t := "frac" + [a, b] + y;
    assert t == "frac" + ([a, b] + y);
    StartsWithConcat("frac", [a, b] + y);
    assert t[4] == a && t[5] == b;
    assert t[6..] == y;
  }

  /** `sqrta` becomes `sqrt{a}` when `a` is not an opening brace. */
  lemma SqrtStep(a: char, y: string)
    requires a != '{'
    ensures Sub(SqrtShorthand, "sqrt" + [a] + y) == "sqrt{" + [a] + "}" + Sub(SqrtShorthand, y)
  {
    var t := "sqrt" + [a] + y;
    assert t == "sqrt" + ([a] + y);
    StartsWithConcat("sqrt", [a] + y);
    assert t[4] == a;
    assert t[5..] == y;
  }

  /** Every `frac` already followed by `{` is left alone. */
  predicate FracsBraced(s: string)
  {
    forall i {:trigger StartsWith(s[i..], "frac")} ::
      0 <= i < |s| && StartsWith(s[i..], "frac") ==> i + 4 < |s| && s[i + 4] == '{'
  }

  lemma {:induction false} FracBracedUnchanged(s: string)
    requires FracsBraced(s)
    ensures Sub(FracShorthand, s) == s
    decreases |s|
  {
    if s != [] {
      assert s[0..] == s;
      assert MatchAt(FracShorthand, s).None?;
      forall i | 0 <= i < |s[1..]| && StartsWith(s[1..][i..], "frac")
        ensures i + 4 < |s[1..]| && s[1..][i + 4] == '{'
      {
        assert s[1..][i..] == s[i + 1..];
      }
      FracBracedUnchanged(s[1..]);
      assert s == [s[0]] + s[1..];
    }
  }

  /** Every `sqrt` already followed by `{` is left alone. */
  predicate SqrtsBraced(s: string)
  {
    forall i {:trigger StartsWith(s[i..], "sqrt")} ::
      0 <= i < |s| && StartsWith(s[i..], "sqrt") ==> i + 4 < |s| && s[i + 4] == '{'
  }

  lemma {:induction false} SqrtBracedUnchanged(s: string)
    requires SqrtsBraced(s)
    ensures Sub(SqrtShorthand, s) == s
    decreases |s|
  {
    if s != [] {
      assert s[0..] == s;
      assert MatchAt(SqrtShorthand, s).None?;
      forall i | 0 <= i < |s[1..]| && StartsWith(s[1..][i..], "sqrt")
        ensures i + 4 < |s[1..]| && s[1..][i + 4] == '{'
      {
        assert s[1..][i..] == s[i + 1..];
      }
      SqrtBracedUnchanged(s[1..]);
      assert s == [s[0]] + s[1..];
    }
  }

  /** A shorthand `frac` after a character that cannot start one gets its braces. */
  lemma FracAfter(c: char, a: char, b: char, y: string)
    requires c != 'f' && a != '{' && b != '\n'
    ensures Sub(FracShorthand, [c] + "frac" + [a, b] + y) ==
      [c] + ("frac{" + [a] + "}{" + [b] + "}" + Sub(FracShorthand, y))
  {
    var t := [c] + "frac" + [a, b] + y;
    assert t[0] != "frac"[0];
    SubAtNoMatch(FracShorthand, t);
    assert t[1..] == "frac" + [a, b] + y;
    FracStep(a, b, y);
  }

  /** The shorthand comments of the pipeline, as proved facts: `\fracab` becomes `\frac{a}{b}`. */
  lemma FracShorthandExample(t: string)
    requires t == "\\fracab"
    ensures Sub(FracShorthand, t) == "\\frac{a}{b}"
  {
    assert t == [t[0]] + "frac" + [t[5], t[6]] + t[7..];
    FracAfter(t[0], t[5], t[6], t[7..]);
  }

  /** `\fracabc` becomes `\frac{a}{b}c`. */
  lemma FracShorthandTailExample(u: string)
    requires u == "\\fracabc"
    ensures Sub(FracShorthand, u) == "\\frac{a}{b}c"
  {
    assert u == [u[0]] + "frac" + [u[5], u[6]] + u[7..];
    FracAfter(u[0], u[5], u[6], u[7..]);
    SubWithoutKey(FracShorthand, u[7..]);
  }

  /** An `f` put in front keeps the `frac`s braced when a `frac` it starts is braced. */
  lemma FracsBracedCons(c: char, s: string)
    requires FracsBraced(s)
    requires c == 'f' && StartsWith(s, "rac") ==> |s| > 3 && s[3] == '{'
    ensures FracsBraced([c] + s)
  {
    FracsBracedTail(c, s);
    FracsBracedFront(c, s);
  }

  /** Past the character put in front, every `frac` is one of `s`, and braced. */
  lemma FracsBracedTail(c: char, s: string)
    requires FracsBraced(s)
    ensures forall i :: 1 <= i < |[c] + s| && StartsWith(([c] + s)[i..], "frac") ==>
      i + 4 < |[c] + s| && ([c] + s)[i + 4] == '{'
  {
    var t := [c] + s;
    forall i | 1 <= i < |t| && StartsWith(t[i..], "frac")
      ensures i + 4 < |t| && t[i + 4] == '{'
    {
      assert t[i..] == s[i - 1..];
    }
  }

  /** A `frac` that the `f` put in front starts is braced. */
  lemma FracsBracedFront(c: char, s: string)
    requires c == 'f' && StartsWith(s, "rac") ==> |s| > 3 && s[3] == '{'
    ensures StartsWith(([c] + s)[0..], "frac") ==> |s| > 3 && ([c] + s)[4] == '{'
  {
    var t := [c] + s;
    assert t[0..] == t;
    if StartsWith(t, "frac") {
      StartsWithSlice(t, "frac");
      StartsWithSlice(s, "rac");
      assert s[..3] == t[1..4];
    }
  }

  /** Text without an `f` put in front keeps the `frac`s braced. */
  lemma FracsBracedAfter(x: string, s: string)
    requires 'f' !in x && FracsBraced(s)
    ensures FracsBraced(x + s)
  {
    var t := x + s;
    forall i | 0 <= i < |x|
      ensures !StartsWith(t[i..], "frac")
    {
      assert t[i..][0] == x[i];
    }
    forall i | |x| <= i < |t| && StartsWith(t[i..], "frac")
      ensures i + 4 < |t| && t[i + 4] == '{'
    {
      assert t[i..] == s[i - |x|..];
    }
  }

  /** An already braced fraction is left alone. */
  lemma FracBracedExample(t: string)
    requires t == "\\frac{abc}{bef}"
    ensures Sub(FracShorthand, t) == t
  {
    var close := "}";
    var f := "f" + close;
    var mid := "abc}{be" + f;
    var r := "rac{" + mid;
    FracsBracedAfter(close, "");
    assert close + "" == close;
    FracsBracedCons('f', close);
    FracsBracedAfter("abc}{be", f);
    FracsBracedAfter("rac{", mid);
    FracsBracedCons('f', r);
    FracsBracedAfter("\\", "f" + r);
    assert t == "\\" + ("f" + r);
    FracBracedUnchanged(t);
  }

  /** `\sqrta` becomes `\sqrt{a}`. */
  lemma SqrtShorthandExample(t: string)
    requires t == "\\sqrta"
    ensures Sub(SqrtShorthand, t) == "\\sqrt{a}"
  {
    SubAtNoMatch(SqrtShorthand, t);
    assert t[1..] == "sqrt" + ['a'] + "";
    SqrtStep('a', "");
  }

  /** `\sqrtab` becomes `\sqrt{a}b`. */
  lemma SqrtShorthandTailExample(u: string)
    requires u == "\\sqrtab"
    ensures Sub(SqrtShorthand, u) == "\\sqrt{a}b"
  {
    SubAtNoMatch(SqrtShorthand, u);
    assert u[1..] == "sqrt" + ['a'] + "b";
    SqrtStep('a', "b");
    SubWithoutKey(SqrtShorthand, "b");
  }

  /** The math-span pattern sees the first line only. */
  lemma MathSpanByLine(t: string, u: string)
    requires Line(t) == Line(u)
    ensures MatchMathSpan(t) == MatchMathSpan(u)
  {
  }

  /** A math-span match takes the whole first line. */
  lemma MathSpanTakesLine(t: string)
    requires MatchMathSpan(t).Some?
    ensures MatchMathSpan(t).value.len == |Line(t)|
  {
  }

  /** A newline-free text is its own first line. */
  lemma LineOfLine(l: string)
    requires '\n' !in l
    ensures Line(l) == l
  {
    LineConcat(l, []);
    assert l + [] == l;
  }

  /** A newline is copied by the math-span rewrite. */
  lemma MathSpanNewline(rest: string)
    ensures Sub(MathSpan, "\n" + rest) == "\n" + Sub(MathSpan, rest)
  {
    var u := "\n" + rest;
    assert Line(u) == [];
    assert MatchAt(MathSpan, u).None?;
    SubAtNoMatch(MathSpan, u);
    assert u[1..] == rest;
  }

  lemma MathSpanIgnoresNextLines(l: string, rest: string)
    requires '\n' !in l
    ensures MatchMathSpan(l + "\n" + rest) == MatchMathSpan(l)
  {
    var t := l + "\n" + rest;
    var u := "\n" + rest;
    assert t == l + u;
    LineConcat(l, u);
    LineOfLine(l);
    MathSpanByLine(t, l);
  }

  lemma MathSpanWholeText(l: string)
    requires '\n' !in l && MatchMathSpan(l).Some?
    ensures Sub(MathSpan, l) == Expand(MathSpan, MatchMathSpan(l).value.groups)
  {
    var h := MatchMathSpan(l).value;
    MathSpanTakesLine(l);
    LineOfLine(l);
    SubAtMatch(MathSpan, l, h);
    assert l[h.len..] == [];
  }

  /** A line the math-span pattern matches is rewritten the same way whatever follows it. */
  lemma MathSpanLineMatch(l: string, rest: string)
    requires '\n' !in l && MatchMathSpan(l).Some?
    ensures Sub(MathSpan, l + "\n" + rest) == Sub(MathSpan, l) + "\n" + Sub(MathSpan, rest)
  {
    var t := l + "\n" + rest;
    MathSpanIgnoresNextLines(l, rest);
    MathSpanWholeText(l);
    var h := MatchMathSpan(l).value;
    MathSpanTakesLine(l);
    LineOfLine(l);
    SubAtMatch(MathSpan, t, h);
    assert t[h.len..] == "\n" + rest;
    MathSpanNewline(rest);
  }

  /** Where no math span starts on a line, its first character is copied, whatever follows the line. */
  lemma MathSpanSkipFirst(l: string, rest: string)
    requires '\n' !in l && l != [] && MatchMathSpan(l).None?
    ensures Sub(MathSpan, l + "\n" + rest) == [l[0]] + Sub(MathSpan, l[1..] + "\n" + rest)
  {
    var t := l + "\n" + rest;
    MathSpanIgnoresNextLines(l, rest);
    assert t[1..] == l[1..] + "\n" + rest;
    SubAtNoMatch(MathSpan, t);
  }

  /** Where no math span starts, one character is copied and the rest of the line follows. */
  lemma MathSpanLineSkip(l: string, rest: string)
    requires '\n' !in l && l != [] && MatchMathSpan(l).None?
    requires Sub(MathSpan, l[1..] + "\n" + rest) == Sub(MathSpan, l[1..]) + "\n" + Sub(MathSpan, rest)
    ensures Sub(MathSpan, l + "\n" + rest) == Sub(MathSpan, l) + "\n" + Sub(MathSpan, rest)
  {
    SubAtNoMatch(MathSpan, l);
    MathSpanSkipFirst(l, rest);
    ConsLine(l[0], Sub(MathSpan, l[1..]), Sub(MathSpan, rest),
      Sub(MathSpan, l + "\n" + rest), Sub(MathSpan, l[1..] + "\n" + rest), Sub(MathSpan, l));
  }

  /** Putting a character in front of a line glued to what follows it. */
  lemma ConsLine(c: char, first: string, next: string, whole: string, tail: string, head: string)
    requires whole == [c] + tail && tail == first + "\n" + next && head == [c] + first
    ensures whole == head + "\n" + next
  {
  }

  /** The math-span rewrite works line by line. */
  lemma {:induction false} MathSpanLines(l: string, rest: string)
    requires '\n' !in l
    ensures Sub(MathSpan, l + "\n" + rest) == Sub(MathSpan, l) + "\n" + Sub(MathSpan, rest)
    decreases |l|
  {
    if l == [] {
      MathSpanNewline(rest);
      assert l + "\n" + rest == "\n" + rest;
    } else if MatchMathSpan(l).Some? {
      MathSpanLineMatch(l, rest);
    } else {
      assert '\n' !in l[1..] by {
        assert forall c :: c in l[1..] ==> c in l;
      }
      MathSpanLines(l[1..], rest);
      MathSpanLineSkip(l, rest);
    }
  }

  /** The hit of the math-span pattern once both dollars of the first line are found. */
  lemma MathSpanHit(t: string, a: nat, k: nat)
    requires IndexOf(Line(t), '$') == Some(a)
    requires a + 1 <= |Line(t)| && IndexOf(Line(t)[a + 1..], '$') == Some(k)
    ensures a + 1 + k < |Line(t)|
    ensures MatchMathSpan(t) == Some(SpanHit(Line(t), a, a + 1 + k))
  {
  }

  /** On a newline-free text, the math span is cut at its first two dollars. */
  lemma MathSpanAt(t: string, a: nat, b: nat)
    requires '\n' !in t && a < b < |t| && t[a] == '$' && t[b] == '$'
    requires '$' !in t[..a] && '$' !in t[a + 1..b]
    ensures MatchMathSpan(t).Some?
    ensures MatchMathSpan(t).value.len == |t|
    ensures MatchMathSpan(t).value.groups[3] == t[a + 1..b]
  {
    LineOfLine(t);
    TwoDollars(t, a, b);
    MathSpanHit(t, a, b - a - 1);
    assert SpanHit(t, a, b).groups[3] == t[a + 1..b];
  }

  /** The first two dollars of `t`, the second found in what follows the first. */
  lemma TwoDollars(t: string, a: nat, b: nat)
    requires a < b < |t| && t[a] == '$' && t[b] == '$'
    requires '$' !in t[..a] && '$' !in t[a + 1..b]
    ensures IndexOf(t, '$') == Some(a) && IndexOf(t[a + 1..], '$') == Some(b - a - 1)
  {
    IndexOfIs(t, '$', a);
    NextDollar(t, a, b);
  }

  /** The dollar at `b` is the first one after position `a`. */
  lemma NextDollar(t: string, a: nat, b: nat)
    requires a < b < |t| && t[b] == '$' && '$' !in t[a + 1..b]
    ensures IndexOf(t[a + 1..], '$') == Some(b - a - 1)
  {
    var after := t[a + 1..];
    assert after[..b - a - 1] == t[a + 1..b];
    assert after[b - a - 1] == '$';
    IndexOfIs(after, '$', b - a - 1);
  }

  lemma MathSpanWholeLine(x: string, m: string, y: string)
    requires '$' !in x && '$' !in m
    requires '\n' !in x && '\n' !in m && '\n' !in y
    ensures MatchMathSpan(x + "$" + m + "$" + y).Some?
    ensures MatchMathSpan(x + "$" + m + "$" + y).value.len == |x + "$" + m + "$" + y|
    ensures MatchMathSpan(x + "$" + m + "$" + y).value.groups[3] == m
  {
    var t := x + "$" + m + "$" + y;
    assert '\n' !in t;
    assert t[..|x|] == x;
    assert t[|x| + 1..|x| + 1 + |m|] == m;
    MathSpanAt(t, |x|, |x| + 1 + |m|);
  }

  /** On a line with two dollars, everything but the text between the first two is dropped. */
  lemma MathSpanFirstSpan(x: string, m: string, y: string)
    requires '$' !in x && '$' !in m
    requires '\n' !in x && '\n' !in m && '\n' !in y
    ensures Sub(MathSpan, x + "$" + m + "$" + y) == "$" + m + "$"
  {
    var t := x + "$" + m + "$" + y;
    MathSpanWholeLine(x, m, y);
    var h := MatchAt(MathSpan, t).value;
    SubAtMatch(MathSpan, t, h);
    assert t[|t|..] == [];
  }

  // ---------------------------------------------------------------------
  // What each search finds

  /** Everything `\$(.*?)\$` finds sat between two dollars of one line of the text. */
  lemma {:induction false} DollarGroupsSound(s: string)
    ensures forall x :: x in FindAll(DollarGroup, s) ==>
      '$' !in x && '\n' !in x && Contains(s, "$" + x + "$")
    decreases |s|
  {
    if s != [] {
      match MatchAt(DollarGroup, s)
      case Some(h) =>
        var k := h.len - 2;
        var x := h.groups[1];
        var l := Line(s[1..]);
        assert IndexOf(l, '$') == Some(k);
        assert x == s[1..k + 1] == l[..k];
        assert s[..k + 2] == "$" + x + "$";
        StartsWithSlice(s, "$" + x + "$");
        ContainsPrefix(s, "$" + x + "$");
        DollarGroupsSound(s[h.len..]);
        forall y | y in FindAll(DollarGroup, s[h.len..])
          ensures Contains(s, "$" + y + "$")
        {
          ContainsInSuffix(s, h.len, "$" + y + "$");
        }
      case None =>
        DollarGroupsSound(s[1..]);
        forall y | y in FindAll(DollarGroup, s[1..])
          ensures Contains(s, "$" + y + "$")
        {
          ContainsInSuffix(s, 1, "$" + y + "$");
        }
    }
  }

  /** A match of `\$(.*?)\$` is its content between two dollars. */
  lemma DollarHitShape(t: string)
    requires MatchDollar(t).Some?
    ensures MatchDollar(t).value.groups[0] == "$" + MatchDollar(t).value.groups[1] + "$"
  {
    var h := MatchDollar(t).value;
    var k := h.len - 2;
    var l := Line(t[1..]);
    assert IndexOf(l, '$') == Some(k);
    assert h.groups[1] == t[1..k + 1] == l[..k];
  }

  /** Two dollars on one line. */
  predicate DollarPair(s: string)
  {
    exists i, j :: 0 <= i < j < |s| && s[i] == '$' && s[j] == '$' && '\n' !in s[i..j]
  }

  /** A match of `\$(.*?)\$` is a pair of dollars on one line. */
  lemma DollarMatchPair(s: string)
    requires MatchDollar(s).Some?
    ensures DollarPair(s)
  {
    var k := MatchDollar(s).value.len - 2;
    var l := Line(s[1..]);
    assert IndexOf(l, '$') == Some(k);
    assert s[k + 1] == '$';
    assert s[0..k + 1] == [s[0]] + l[..k];
  }

  /** A dollar at the start with another later on the same line is a match. */
  lemma DollarPairAtStart(s: string, j: nat)
    requires 0 < j < |s| && s[0] == '$' && s[j] == '$' && '\n' !in s[0..j]
    ensures MatchDollar(s).Some?
  {
    var l := Line(s[1..]);
    assert l[j - 1] == '$';
  }

  /** A pair of one line of the tail is a pair of the text; a pair of the text not
      starting at its first character is a pair of the tail. */
  lemma DollarPairShift(s: string)
    requires s != []
    ensures DollarPair(s[1..]) ==> DollarPair(s)
    ensures DollarPair(s) && MatchDollar(s).None? ==> DollarPair(s[1..])
  {
    if DollarPair(s[1..]) {
      var i, j :| 0 <= i < j < |s[1..]| && s[1..][i] == '$' && s[1..][j] == '$' && '\n' !in s[1..][i..j];
      assert s[1..][i..j] == s[i + 1..j + 1];
      assert s[i + 1] == '$' && s[j + 1] == '$';
    }
    if DollarPair(s) && MatchDollar(s).None? {
      var i, j :| 0 <= i < j < |s| && s[i] == '$' && s[j] == '$' && '\n' !in s[i..j];
      if i == 0 {
        DollarPairAtStart(s, j);
      }
      assert s[1..][i - 1..j - 1] == s[i..j];
      assert s[1..][i - 1] == '$' && s[1..][j - 1] == '$';
    }
  }

  /** `\$(.*?)\$` finds something exactly when some line holds two dollars. */
  lemma {:induction false} DollarGroupsIffPair(s: string)
    ensures FindAll(DollarGroup, s) != [] <==> DollarPair(s)
    decreases |s|
  {
    if s != [] {
      if MatchDollar(s).Some? {
        DollarMatchPair(s);
      } else {
        DollarGroupsIffPair(s[1..]);
        DollarPairShift(s);
        assert FindAll(DollarGroup, s) == FindAll(DollarGroup, s[1..]);
      }
    }
  }

  /** Each match of the number pattern is a number token. */
  lemma NumberLengthToken(t: string)
    requires NumberLength(t) > 0
    ensures IsNumberToken(t[..NumberLength(t)])
  {
    var sign := if HasSign(t) then 1 else 0;
    var d := DigitRun(t[sign..]);
    var dot := sign + d;
    var n := NumberLength(t);
    if dot < |t| && t[dot] == '.' && DigitRun(t[dot + 1..]) > 0 {
      DecimalToken(t, sign, d, DigitRun(t[dot + 1..]));
    }
  }

  /** A sign of length `sign`, `d` digits, a dot and `e > 0` digits make a decimal token. */
  lemma DecimalToken(t: string, sign: nat, d: nat, e: nat)
    requires sign == (if HasSign(t) then 1 else 0)
    requires sign + d + 1 + e <= |t| && t[sign + d] == '.' && e > 0
    requires AllDigits(t[sign..][..d]) && AllDigits(t[sign + d + 1..][..e])
    ensures IsNumberToken(t[..sign + d + 1 + e])
  {
    var n := sign + d + 1 + e;
    var x := t[..n];
    assert HasSign(x) == HasSign(t);
    var u := Unsigned(x);
    assert u == t[sign..n];
    assert u[..d] == t[sign..sign + d] == t[sign..][..d];
    assert u[d + 1..] == t[sign + d + 1..n] == t[sign + d + 1..][..e];
    assert u[d] == '.';
    assert IsDecimal(u);
  }

  /** A match of the number pattern holds a digit. */
  lemma NumberLengthDigit(t: string)
    requires NumberLength(t) > 0
    ensures HasDigit(t)
  {
    var sign := if HasSign(t) then 1 else 0;
    var dot := sign + DigitRun(t[sign..]);
    if dot < |t| && t[dot] == '.' && DigitRun(t[dot + 1..]) > 0 {
      assert t[dot + 1..][0] == t[dot + 1];
      assert IsDigit(t[dot + 1]);
    } else {
      assert IsDigit(t[0]);
    }
  }

  /** A lone `$...$` span on one line yields its content and nothing else. */
  lemma DollarGroupSingle(a: string)
    requires '$' !in a && '\n' !in a
    ensures FindAll(DollarGroup, "$" + a + "$") == [a]
  {
    var t := "$" + a + "$";
    assert t[1..] == a + "$";
    LineOfLine(a + "$");
    IndexOfIs(a + "$", '$', |a|);
    assert t[..|a| + 2] == t && t[1..|a| + 1] == a;
    assert MatchDollar(t) == Some(Hit(|a| + 2, [t, a]));
    assert t[|a| + 2..] == [];
    assert FindAll(DollarGroup, t) == [a] + FindAll(DollarGroup, []);
  }

  /** Where the number pattern does not match, no digit stands. */
  lemma NoNumberNoDigit(t: string)
    requires |t| > 0 && NumberLength(t) == 0
    ensures !IsDigit(t[0])
  {
    assert DigitRun(t) == 0;
  }

  /** Everything the number search finds is a number token of the text, and a
      signed one always has a decimal point. */
  lemma {:induction false} NumbersSound(s: string)
    ensures forall x :: x in FindAll(Number, s) ==>
      IsNumberToken(x) && Contains(s, x) && (HasSign(x) ==> '.' in x)
    decreases |s|
  {
    if s != [] {
      match MatchAt(Number, s)
      case Some(h) =>
        var x := h.groups[0];
        NumberLengthToken(s);
        StartsWithSlice(s, x);
        ContainsPrefix(s, x);
        if HasSign(x) {
          assert !IsDigits(x);
          var u := x[1..];
          var k :| 0 <= k < |u| && u[k] == '.' && AllDigits(u[..k]) && IsDigits(u[k + 1..]);
          assert x[k + 1] == '.';
        }
        NumbersSound(s[h.len..]);
        forall y | y in FindAll(Number, s[h.len..])
          ensures Contains(s, y)
        {
          ContainsInSuffix(s, h.len, y);
        }
      case None =>
        NumbersSound(s[1..]);
        forall y | y in FindAll(Number, s[1..])
          ensures Contains(s, y)
        {
          ContainsInSuffix(s, 1, y);
        }
    }
  }

  /** The number search finds something exactly when the text holds a digit. */
  lemma {:induction false} NumbersIffDigit(s: string)
    ensures FindAll(Number, s) != [] <==> HasDigit(s)
    decreases |s|
  {
    if s != [] {
      if MatchAt(Number, s).Some? {
        NumberLengthDigit(s);
      } else {
        NoNumberNoDigit(s);
        NumbersIffDigit(s[1..]);
        assert FindAll(Number, s) == FindAll(Number, s[1..]);
        if HasDigit(s) {
          var i :| 0 <= i < |s| && IsDigit(s[i]);
          assert s[1..][i - 1] == s[i];
        }
        if HasDigit(s[1..]) {
          var i :| 0 <= i < |s[1..]| && IsDigit(s[1..][i]);
          assert s[i + 1] == s[1..][i];
        }
      }
    }
  }

  // ---------------------------------------------------------------------
  // The last match `re.findall` reports

  /** Cutting a text short keeps its leading digit run, up to the cut. */
  lemma {:induction false} DigitRunPrefix(t: string, j: nat)
    requires j <= |t|
    ensures DigitRun(t[..j]) == if DigitRun(t) <= j then DigitRun(t) else j
    decreases j
  {
    if j > 0 && IsDigit(t[0]) {
      assert t[..j][1..] == t[1..][..j - 1];
      DigitRunPrefix(t[1..], j - 1);
    }
  }

  /** A number match is kept by a cut at or after its end; in particular no
      match appears by cutting where there was none. */
  lemma NumberLengthPrefix(t: string, j: nat)
    requires NumberLength(t) <= j <= |t|
    ensures NumberLength(t[..j]) == NumberLength(t)
  {
    if j > 0 {
      var u := t[..j];
      var sign := if HasSign(t) then 1 else 0;
      assert HasSign(u) == HasSign(t);
      RunAfterPrefix(t, j, sign);
      DigitRunPrefix(t, j);
      var dot := sign + DigitRun(t[sign..]);
      if dot < j {
        RunAfterPrefix(t, j, dot + 1);
        assert u[dot] == t[dot];
      }
    }
  }

  /** The digit run from position `i` of a text cut at `j`. */
  lemma RunAfterPrefix(t: string, j: nat, i: nat)
    requires i <= j <= |t|
    ensures DigitRun(t[..j][i..]) == if DigitRun(t[i..]) <= j - i then DigitRun(t[i..]) else j - i
  {
    assert t[..j][i..] == t[i..][..j - i];
    DigitRunPrefix(t[i..], j - i);
  }

  /** The first line of a text cut at `m` is the first line cut at `m`. */
  lemma {:induction false} LinePrefix(u: string, m: nat)
    requires m <= |u|
    ensures Line(u[..m]) == Line(u)[..if |Line(u)| <= m then |Line(u)| else m]
    decreases m
  {
    if m > 0 && u[0] != '\n' {
      assert u[..m][1..] == u[1..][..m - 1];
      LinePrefix(u[1..], m - 1);
    }
  }

  /** The first `c` on the first line of a text cut at `m`. */
  lemma IndexOfLinePrefix(u: string, m: nat, c: char)
    requires m <= |u|
    ensures IndexOf(Line(u[..m]), c) ==
      match IndexOf(Line(u), c)
      case Some(k) => if k < m then Some(k) else None
      case None => None
  {
    var l, l' := Line(u), Line(u[..m]);
    LinePrefix(u, m);
    match IndexOf(l, c)
    case Some(k) =>
      if k < m {
        assert l'[..k] == l[..k];
        IndexOfIs(l', c, k);
      } else {
        assert l' == l[..k][..|l'|];
        assert c !in l';
      }
    case None =>
      assert c !in l';
  }

  /** A number match survives a cut at or after its end, and a cut makes no
      number match where there was none. */
  lemma MatchNumberPrefix(t: string, j: nat)
    requires j <= |t|
    ensures MatchNumber(t).None? ==> MatchNumber(t[..j]).None?
    ensures MatchNumber(t).Some? && MatchNumber(t).value.len <= j ==> MatchNumber(t[..j]) == MatchNumber(t)
  {
    if NumberLength(t) <= j {
      NumberLengthPrefix(t, j);
      assert t[..j][..NumberLength(t)] == t[..NumberLength(t)];
    }
  }

  /** Likewise for a `$...$` match. */
  lemma MatchDollarPrefix(t: string, j: nat)
    requires j <= |t|
    ensures MatchDollar(t).None? ==> MatchDollar(t[..j]).None?
    ensures MatchDollar(t).Some? && MatchDollar(t).value.len <= j ==> MatchDollar(t[..j]) == MatchDollar(t)
  {
    var u := t[..j];
    if j > 0 && t[0] == '$' {
      var v := t[1..];
      assert u[0] == '$' && u[1..] == v[..j - 1];
      IndexOfLinePrefix(v, j - 1, '$');
      match IndexOf(Line(v), '$')
      case Some(k) =>
        if k + 2 <= j {
          assert u[..k + 2] == t[..k + 2];
          assert u[1..k + 1] == t[1..k + 1];
        }
      case None =>
    } else if j > 0 {
      assert u[0] == t[0];
    }
  }

  /** The same for either pattern `re.findall` is used with. */
  lemma MatchPrefix(p: Pattern, t: string, j: nat)
    requires GroupCount(p) <= 1 && j <= |t|
    ensures MatchAt(p, t).None? ==> MatchAt(p, t[..j]).None?
    ensures MatchAt(p, t).Some? && MatchAt(p, t).value.len <= j ==> MatchAt(p, t[..j]) == MatchAt(p, t)
  {
    if p == Number {
      MatchNumberPrefix(t, j);
    } else {
      MatchDollarPrefix(t, j);
    }
  }

  /** The search of `s` reaches a match at `k` and finds everything else before
      `k`, and no position after that match starts another. */
  predicate LastMatchAt(p: Pattern, s: string, k: nat)
    requires GroupCount(p) <= 1
  {
    && k < |s|
    && MatchAt(p, s[k..]).Some?
    && FindAll(p, s) == FindAll(p, s[..k]) + [MatchAt(p, s[k..]).value.groups[GroupCount(p)]]
    && forall j :: k + MatchAt(p, s[k..]).value.len <= j < |s| ==> MatchAt(p, s[j..]).None?
  }

  /** `x` is what the last match the search of `s` finds, at `k`, yields. */
  predicate LastFoundAt(p: Pattern, s: string, k: nat, x: string)
    requires GroupCount(p) <= 1
  {
    LastMatchAt(p, s, k) && MatchAt(p, s[k..]).value.groups[GroupCount(p)] == x
  }

  /** A search that finds nothing met no match anywhere. */
  lemma {:induction false} FindAllEmpty(p: Pattern, s: string)
    requires GroupCount(p) <= 1 && FindAll(p, s) == []
    ensures forall j :: 0 <= j < |s| ==> MatchAt(p, s[j..]).None?
    decreases |s|
  {
    if s != [] {
      FindAllEmpty(p, s[1..]);
      forall j | 1 <= j < |s|
        ensures MatchAt(p, s[j..]).None?
      {
        assert s[j..] == s[1..][j - 1..];
      }
      assert s[0..] == s;
    }
  }

  /** A last match of the text past the first step of the search is one of the whole text. */
  lemma LastMatchShift(p: Pattern, s: string, d: nat, k: nat)
    requires GroupCount(p) <= 1 && 0 < d <= |s|
    requires MatchAt(p, s).Some? ==> d == MatchAt(p, s).value.len
    requires MatchAt(p, s).None? ==> d == 1
    requires LastMatchAt(p, s[d..], k)
    ensures LastMatchAt(p, s, d + k)
  {
    var rest := s[d..];
    assert s[d + k..] == rest[k..];
    var g := MatchAt(p, rest[k..]).value;
    NoMatchShift(p, s, d, k + g.len);
    FindAllShift(p, s, d, k, g.groups[GroupCount(p)]);
  }

  /** No match from position `i` of the text past `d` is no match from `d + i` of the text. */
  lemma NoMatchShift(p: Pattern, s: string, d: nat, i: nat)
    requires d <= |s|
    requires forall j :: i <= j < |s[d..]| ==> MatchAt(p, s[d..][j..]).None?
    ensures forall j :: d + i <= j < |s| ==> MatchAt(p, s[j..]).None?
  {
    forall j | d + i <= j < |s|
      ensures MatchAt(p, s[j..]).None?
    {
      assert s[j..] == s[d..][j - d..];
    }
  }

  /** Whatever the search finds in the text past its first step and before
      a position, it finds in the whole text before that position moved along. */
  lemma FindAllShift(p: Pattern, s: string, d: nat, k: nat, x: string)
    requires GroupCount(p) <= 1 && 0 < d && d + k < |s|
    requires MatchAt(p, s).Some? ==> d == MatchAt(p, s).value.len
    requires MatchAt(p, s).None? ==> d == 1
    requires FindAll(p, s[d..]) == FindAll(p, s[d..][..k]) + [x]
    ensures FindAll(p, s) == FindAll(p, s[..d + k]) + [x]
  {
    FindAllStep(p, s, d);
    FindAllFront(p, s, d, k);
  }

  /** The search of a text cut past its first step takes that step too. */
  lemma FindAllFront(p: Pattern, s: string, d: nat, k: nat)
    requires GroupCount(p) <= 1 && 0 < d && d + k <= |s|
    requires MatchAt(p, s).Some? ==> d == MatchAt(p, s).value.len
    requires MatchAt(p, s).None? ==> d == 1
    ensures FindAll(p, s[..d + k]) ==
      (if MatchAt(p, s).Some? then [MatchAt(p, s).value.groups[GroupCount(p)]] else []) + FindAll(p, s[d..][..k])
  {
    var front := s[..d + k];
    assert front[d..] == s[d..][..k];
    MatchPrefix(p, s, d + k);
    FindAllStep(p, front, d);
  }

  /** One step of the search: the match at the front, if any, then the search of
      the text past it. */
  lemma FindAllStep(p: Pattern, s: string, d: nat)
    requires GroupCount(p) <= 1 && 0 < d <= |s|
    requires MatchAt(p, s).Some? ==> d == MatchAt(p, s).value.len
    requires MatchAt(p, s).None? ==> d == 1
    ensures FindAll(p, s) ==
      (if MatchAt(p, s).Some? then [MatchAt(p, s).value.groups[GroupCount(p)]] else []) + FindAll(p, s[d..])
  {
  }

  /** What `re.findall(p, s)[-1]` is: the match at a position the search reaches,
      after which nothing matches. */
  lemma {:induction false} FindAllLast(p: Pattern, s: string)
    requires GroupCount(p) <= 1 && FindAll(p, s) != []
    ensures exists k: nat :: LastMatchAt(p, s, k)
    decreases |s|
  {
    match MatchAt(p, s)
    case Some(h) =>
      var rest := s[h.len..];
      if FindAll(p, rest) == [] {
        FindAllEmpty(p, rest);
        forall j | h.len <= j < |s|
          ensures MatchAt(p, s[j..]).None?
        {
          assert s[j..] == rest[j - h.len..];
        }
        assert s[0..] == s && s[..0] == [];
        assert LastMatchAt(p, s, 0);
      } else {
        FindAllLast(p, rest);
        var k :| LastMatchAt(p, rest, k);
        LastMatchShift(p, s, h.len, k);
      }
    case None =>
      FindAllLast(p, s[1..]);
      var k :| LastMatchAt(p, s[1..], k);
      LastMatchShift(p, s, 1, k);
  }
}
