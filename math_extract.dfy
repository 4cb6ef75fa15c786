/** `extract_inner_content` of the MATH dataset: the reference answer is the
    text inside the first `\boxed{...}` of a solution, braces nested inside it
    counted. */
module MathExtract {
  import opened Wrappers
  import opened Text
  import opened Patterns

  /** How a character moves the brace nesting depth. */
  function Delta(c: char): int
  {
    if c == '{' then 1 else if c == '}' then -1 else 0
  }

  /** The nesting depth that `t[i..j]` leaves behind: its `{` count minus its `}` count. */
  function Nesting(t: string, i: nat, j: nat): int
    requires i <= j <= |t|
    decreases j
  {
    if j == i then 0 else Nesting(t, i, j - 1) + Delta(t[j - 1])
  }

  lemma {:induction false} NestingCons(t: string, i: nat, j: nat)
    requires i < j <= |t|
    ensures Nesting(t, i, j) == Delta(t[i]) + Nesting(t, i + 1, j)
    decreases j
  {
    if j > i + 1 {
      NestingCons(t, i, j - 1);
    }
  }

  /** The nesting of a slice, counted inside the slice. */
  lemma {:induction false} NestingSlice(t: string, i: nat, j: nat, k: nat)
    requires i <= k <= j <= |t|
    ensures Nesting(t[i..j], 0, k - i) == Nesting(t, i, k)
    decreases k
  {
    if k > i {
      NestingSlice(t, i, j, k - 1);
      assert t[i..j][k - 1 - i] == t[k - 1];
    }
  }

  /** Braces balance: no prefix closes more than it opened, and the whole closes
      all it opened. */
  predicate Balanced(x: string)
  {
    Nesting(x, 0, |x|) == 0 && forall k :: 0 <= k <= |x| ==> Nesting(x, 0, k) >= 0
  }

  /** The scan of `extract_inner_content` from position `i` with `count` braces
      open: it stops just past the brace that closes them all, or at the end. */
  function ScanEnd(t: string, i: nat, count: int): (e: nat)
    requires i <= |t|
    ensures i <= e <= |t|
    ensures count <= 0 ==> e == i
    ensures count > 0 ==> forall j :: i <= j < e ==> count + Nesting(t, i, j) > 0
    ensures count > 0 ==> count + Nesting(t, i, e) >= 0
    ensures count > 0 && e < |t| ==> count + Nesting(t, i, e) == 0
    decreases |t| - i
  {
    if count > 0 && i < |t| then
      var e := ScanEnd(t, i + 1, count + Delta(t[i]));
      forall j | i < j <= e
        ensures Nesting(t, i, j) == Delta(t[i]) + Nesting(t, i + 1, j)
      {
        NestingCons(t, i, j);
      }
      e
    else i
  }

  /** Where the answer of a solution starts: just past its first `\boxed{`. */
  function ContentStart(t: string): (start: nat)
    requires Contains(t, BoxedMarker)
    ensures start <= |t|
  {
    Find(t, BoxedMarker).value + |BoxedMarker|
  }

  /** Python's `s[i:j]`, the empty text when `j` does not exceed `i`. */
  function Slice(s: string, i: nat, j: int): (r: string)
    requires i <= |s| && j <= |s|
    ensures j <= i ==> r == []
    ensures i < j ==> r == s[i..j]
  {
    if j <= i then [] else s[i..j]
  }

  /** What the scan from `start` with one brace open reads, less the character
      it stopped after. */
  function BoxContent(t: string, start: nat): (x: string)
    requires start <= |t|
    ensures start + |x| <= |t|
  {
    Slice(t, start, ScanEnd(t, start, 1) - 1)
  }

  /** `extract_inner_content`: the text inside the first `\boxed{...}`, braces
      nested inside it counted, or `None` when there is no `\boxed{`. */
  function Extract(text: string): (r: Option<string>)
    ensures r.None? <==> !Contains(text, BoxedMarker)
  {
    match Find(text, BoxedMarker)
    case None => None
    case Some(p) => Some(BoxContent(text, p + |BoxedMarker|))
  }

  /** The counting loop of `extract_inner_content`: from `start`, with one brace
      open, it reads up to and including the brace that closes it, or to the end. */
  method ScanBraces(text: string, start: nat) returns (end: nat)
    requires start <= |text|
    ensures end == ScanEnd(text, start, 1)
  {
    var count := 1;
    end := start;
    while count > 0 && end < |text|
      invariant start <= end <= |text|
      invariant ScanEnd(text, end, count) == ScanEnd(text, start, 1)
      decreases |text| - end
    {
      if text[end] == '{' {
        count := count + 1;
      } else if text[end] == '}' {
        count := count - 1;
      }
      end := end + 1;
    }
  }

  /** `extract_inner_content`: find the first `\boxed{`, scan, and cut. */
  method ExtractInnerContent(text: string) returns (r: Option<string>)
    ensures r == Extract(text)
  {
    var found := Find(text, BoxedMarker);
    if found.None? {
      return None;
    }
    var start := found.value + |BoxedMarker|;
    var end := ScanBraces(text, start);
    r := Some(Slice(text, start, end - 1));
    assert r == Some(BoxContent(text, start));
  }

  /** The braces open at `start` get closed somewhere after it. */
  predicate ClosesFrom(t: string, start: nat)
    requires start <= |t|
  {
    exists j :: start <= j <= |t| && 1 + Nesting(t, start, j) == 0
  }

  /** The braces opened by the answer's `\boxed{` get closed somewhere after it. */
  predicate Closes(t: string)
    requires Contains(t, BoxedMarker)
  {
    ClosesFrom(t, ContentStart(t))
  }

  /** The scan stops at the first position where the braces balance. */
  lemma ScanEndAt(t: string, i: nat, count: int, e: nat)
    requires i <= e <= |t| && count > 0
    requires forall j :: i <= j < e ==> count + Nesting(t, i, j) > 0
    requires count + Nesting(t, i, e) == 0
    ensures ScanEnd(t, i, count) == e
  {
  }

  /** What a scan that closes its one brace has read: balanced text, then `}`. */
  lemma ClosedScan(t: string, start: nat, e: nat)
    requires start <= e <= |t|
    requires forall j :: start <= j < e ==> 1 + Nesting(t, start, j) > 0
    requires 1 + Nesting(t, start, e) == 0
    ensures start < e && t[e - 1] == '}' && Balanced(t[start..e - 1])
  {
    ClosingBrace(t, start, e);
    var x := t[start..e - 1];
    forall k | 0 <= k <= |x|
      ensures Nesting(x, 0, k) == Nesting(t, start, start + k)
    {
      NestingSlice(t, start, e - 1, start + k);
    }
  }

  /** The character that brings one open brace to zero is a `}` read at depth zero. */
  lemma ClosingBrace(t: string, start: nat, e: nat)
    requires start <= e <= |t| && 1 + Nesting(t, start, e) == 0
    requires start < e ==> 1 + Nesting(t, start, e - 1) > 0
    ensures start < e && t[e - 1] == '}' && Nesting(t, start, e - 1) == 0
  {
  }

  /** When the braces close at all, the scan stops where they close. */
  lemma ScanFindsClose(t: string, start: nat)
    requires start <= |t| && ClosesFrom(t, start)
    ensures 1 + Nesting(t, start, ScanEnd(t, start, 1)) == 0
  {
    var j :| start <= j <= |t| && 1 + Nesting(t, start, j) == 0;
  }

  /** Closed braces: the content is balanced and the `}` after it closes them. */
  lemma ContentClosed(t: string, start: nat)
    requires start <= |t| && ClosesFrom(t, start)
    ensures Balanced(BoxContent(t, start))
    ensures start + |BoxContent(t, start)| < |t|
    ensures t[start..start + |BoxContent(t, start)| + 1] == BoxContent(t, start) + "}"
  {
    var e := ScanEnd(t, start, 1);
    ScanFindsClose(t, start);
    ClosedScan(t, start, e);
    assert BoxContent(t, start) == t[start..e - 1];
    assert t[start..e] == t[start..e - 1] + [t[e - 1]];
  }

  /** Balanced text closed by a `}` is exactly the content read from `start`. */
  lemma ContentFindsBalanced(t: string, start: nat, x: string)
    requires Balanced(x) && start + |x| < |t|
    requires t[start..start + |x| + 1] == x + "}"
    ensures BoxContent(t, start) == x
  {
    var e := start + |x| + 1;
    assert t[start..e - 1] == t[start..e][..|x|];
    assert (x + "}")[..|x|] == x;
    forall k | start <= k < e
      ensures 1 + Nesting(t, start, k) > 0
    {
      NestingSlice(t, start, e - 1, k);
    }
    NestingSlice(t, start, e - 1, e - 1);
    assert t[e - 1] == (x + "}")[|x|];
    ScanEndAt(t, start, 1, e);
  }

  /** Unclosed braces: the content is the rest of the text less its last character. */
  lemma ContentUnclosed(t: string, start: nat)
    requires start <= |t| && !ClosesFrom(t, start)
    ensures BoxContent(t, start) == Slice(t, start, |t| - 1)
  {
  }

  /** `Extract` in terms of the content read after the first `\boxed{`. */
  lemma ExtractAtStart(t: string)
    requires Contains(t, BoxedMarker)
    ensures Extract(t) == Some(BoxContent(t, ContentStart(t)))
  {
  }

  /** A closed box yields balanced content, and the brace after it closes the box. */
  lemma ExtractClosed(t: string)
    requires Contains(t, BoxedMarker) && Closes(t)
    ensures Balanced(Extract(t).value)
    ensures ContentStart(t) + |Extract(t).value| < |t|
    ensures t[ContentStart(t)..ContentStart(t) + |Extract(t).value| + 1] == Extract(t).value + "}"
  {
    ExtractAtStart(t);
    ContentClosed(t, ContentStart(t));
  }

  /** Conversely, balanced text closed by a `}` right after the box opening is what is extracted. */
  lemma ExtractFindsBalanced(t: string, x: string)
    requires Contains(t, BoxedMarker) && Balanced(x)
    requires ContentStart(t) + |x| < |t|
    requires t[ContentStart(t)..ContentStart(t) + |x| + 1] == x + "}"
    ensures Extract(t) == Some(x)
  {
    ExtractAtStart(t);
    ContentFindsBalanced(t, ContentStart(t), x);
  }

  /** A text opening with `\boxed{`, balanced text and `}` yields that text,
      whatever follows. */
  lemma ExtractBoxed(x: string, y: string)
    requires Balanced(x)
    ensures Extract(BoxedMarker + x + "}" + y) == Some(x)
  {
    var t := BoxedMarker + x + "}" + y;
    assert t == BoxedMarker + (x + "}" + y);
    StartsWithConcat(BoxedMarker, x + "}" + y);
    assert t[0..] == t;
    assert Find(t, BoxedMarker) == Some(0);
    assert t[|BoxedMarker|..|BoxedMarker| + |x| + 1] == x + "}";
    ExtractFindsBalanced(t, x);
  }

  /** Braces nested inside the box are counted: `\boxed{\frac{1}{2}}` yields `\frac{1}{2}`. */
  lemma ExtractNestedExample(t: string)
    requires t == "\\boxed{\\frac{1}{2}}"
    ensures Extract(t) == Some("\\frac{1}{2}")
  {
    var x := t[7..18];
    FracBalanced(x);
    assert t == BoxedMarker + x + "}" + "";
    ExtractBoxed(x, "");
  }

  /** `\frac{1}{2}` balances its braces. */
  lemma FracBalanced(x: string)
    requires x == "\\frac{1}{2}"
    ensures Balanced(x)
  {
    assert Nesting(x, 0, 6) == 1 && Nesting(x, 0, 8) == 0 && Nesting(x, 0, 11) == 0;
    forall k | 0 <= k <= |x|
      ensures Nesting(x, 0, k) >= 0
    {
      assert k <= 5 || k == 6 || k == 7 || k == 8 || k == 9 || k == 10 || k == 11;
    }
  }

  /** An unclosed box yields the rest of the solution less its last character. */
  lemma ExtractUnclosed(t: string)
    requires Contains(t, BoxedMarker) && !Closes(t)
    ensures Extract(t) == Some(Slice(t, ContentStart(t), |t| - 1))
  {
    ExtractAtStart(t);
    ContentUnclosed(t, ContentStart(t));
  }
}
