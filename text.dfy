/** The Python `str` operations that the answer pipeline and the argument checks
    use, on strings as sequences of characters. Where Python consults Unicode
    tables (`isdigit`, `lower`) the ASCII subset is used. */
module Text {
  import opened Wrappers

  // ---------------------------------------------------------------------
  // Prefixes and suffixes

  /** `s.startswith(p)`, compared character by character. */
  predicate StartsWith(s: string, p: string)
    decreases |p|
  {
    |p| == 0 || (|s| > 0 && s[0] == p[0] && StartsWith(s[1..], p[1..]))
  }

  /** `StartsWith` is the slice comparison `s[:len(p)] == p`. */
  lemma {:induction false} StartsWithSlice(s: string, p: string)
    ensures StartsWith(s, p) <==> |p| <= |s| && s[..|p|] == p
    decreases |p|
  {
    if |p| > 0 && |s| > 0 {
      StartsWithSlice(s[1..], p[1..]);
      if |p| <= |s| {
        assert s[..|p|] == [s[0]] + s[1..][..|p| - 1];
        assert p == [p[0]] + p[1..];
      }
    }
  }

  lemma StartsWithConcat(p: string, y: string)
    ensures StartsWith(p + y, p)
  {
    StartsWithSlice(p + y, p);
    assert (p + y)[..|p|] == p;
  }

  /** `s.endswith(p)`. */
  predicate EndsWith(s: string, p: string)
  {
    |p| <= |s| && s[|s| - |p|..] == p
  }

  // ---------------------------------------------------------------------
  // Searching

  /** `s.find(pat)`: the first position at which `pat` occurs. */
  function Find(s: string, pat: string): (r: Option<nat>)
    ensures r.Some? ==> r.value + |pat| <= |s| && StartsWith(s[r.value..], pat)
    ensures r.Some? ==> forall j {:trigger StartsWith(s[j..], pat)} :: 0 <= j < r.value ==> !StartsWith(s[j..], pat)
    ensures r.None? ==> forall j {:trigger StartsWith(s[j..], pat)} :: 0 <= j <= |s| ==> !StartsWith(s[j..], pat)
    decreases |s|
  {
    assert s[0..] == s;
    if StartsWith(s, pat) then
      StartsWithSlice(s, pat);
      Some(0)
    else if |s| == 0 then
      None
    else
      assert forall j :: 1 <= j <= |s| ==> s[j..] == s[1..][j - 1..];
      match Find(s[1..], pat)
      case None => None
      case Some(k) => Some(k + 1)
  }

  /** `pat in s`. */
  predicate Contains(s: string, pat: string)
  {
    Find(s, pat).Some?
  }

  /** A text contains a one-character string exactly when it holds that character. */
  lemma ContainsChar(s: string, c: char)
    ensures Contains(s, [c]) <==> c in s
  {
    if Contains(s, [c]) {
      var k := Find(s, [c]).value;
      StartsWithSlice(s[k..], [c]);
      assert s[k] == s[k..][0];
    }
    if c in s {
      var k :| 0 <= k < |s| && s[k] == c;
      StartsWithSlice(s[k..], [c]);
      assert s[k..][..1] == [c];
    }
  }

  /** A pattern with a character that the text lacks does not occur in it. */
  lemma NotContainsForeign(s: string, pat: string, k: nat)
    requires k < |pat| && pat[k] !in s
    ensures !Contains(s, pat)
  {
    if Contains(s, pat) {
      var i := Find(s, pat).value;
      StartsWithSlice(s[i..], pat);
      assert false;
    }
  }

  /** The first position of `c` in `s` (`s.find(c)` for one character). */
  function IndexOf(s: string, c: char): (r: Option<nat>)
    ensures r.Some? ==> r.value < |s| && s[r.value] == c && c !in s[..r.value]
    ensures r.None? ==> c !in s
  {
    if s == [] then None
    else if s[0] == c then Some(0)
    else
      match IndexOf(s[1..], c)
      case None => None
      case Some(k) => assert s[..k + 1] == [s[0]] + s[1..][..k]; Some(k + 1)
  }

  /** The first `c` of a text is at the position with `c` before which there is none. */
  lemma IndexOfIs(s: string, c: char, k: nat)
    requires k < |s| && s[k] == c && c !in s[..k]
    ensures IndexOf(s, c) == Some(k)
  {
  }

  /** The last position of `c` in `s` (`s.rfind(c)`). */
  function LastIndexOf(s: string, c: char): (r: Option<nat>)
    ensures r.Some? ==> r.value < |s| && s[r.value] == c && c !in s[r.value + 1..]
    ensures r.None? ==> c !in s
  {
    if s == [] then None
    else if s[|s| - 1] == c then Some(|s| - 1)
    else
      var init := s[..|s| - 1];
      match LastIndexOf(init, c)
      case None => assert s == init + [s[|s| - 1]]; None
      case Some(k) => assert s[k + 1..] == init[k + 1..] + [s[|s| - 1]]; Some(k)
  }

  /** The last `c` of a text is at the position with `c` after which there is none. */
  lemma LastIndexOfIs(s: string, c: char, k: nat)
    requires k < |s| && s[k] == c && c !in s[k + 1..]
    ensures LastIndexOf(s, c) == Some(k)
  {
  }

  /** An occurrence in a suffix is an occurrence in the whole text. */
  lemma ContainsInSuffix(s: string, k: nat, pat: string)
    requires k <= |s| && Contains(s[k..], pat)
    ensures Contains(s, pat)
  {
    var j := Find(s[k..], pat).value;
    assert s[k..][j..] == s[k + j..];
  }

  /** A text starting with `pat` contains it. */
  lemma ContainsPrefix(s: string, pat: string)
    requires StartsWith(s, pat)
    ensures Contains(s, pat)
  {
    assert s[0..] == s;
  }

  // ---------------------------------------------------------------------
  // Replacing, splitting and joining

  /** `s.replace(pat, rep)` for a nonempty `pat`: the occurrences found scanning
      left to right, without overlaps, are each replaced by `rep`. */
  function ReplaceAll(s: string, pat: string, rep: string): (r: string)
    requires |pat| > 0
    ensures forall c :: c in r ==> c in s || c in rep
    decreases |s|
  {
    if |s| == 0 then []
    else if StartsWith(s, pat) then
      StartsWithSlice(s, pat);
      var rest := ReplaceAll(s[|pat|..], pat, rep);
      assert forall c :: c in s[|pat|..] ==> c in s;
      rep + rest
    else
      var rest := ReplaceAll(s[1..], pat, rep);
      assert forall c :: c in s[1..] ==> c in s;
      [s[0]] + rest
  }

  /** A text without the pattern is left unchanged by replacing it. */
  lemma {:induction false} ReplaceAllAbsent(s: string, pat: string, rep: string)
    requires |pat| > 0 && !Contains(s, pat)
    ensures ReplaceAll(s, pat, rep) == s
    decreases |s|
  {
    if |s| > 0 {
      assert !StartsWith(s, pat);
      ReplaceAllAbsent(s[1..], pat, rep);
      assert s == [s[0]] + s[1..];
    }
  }

  /** `s.split(sep)` for a nonempty `sep`. */
  function Split(s: string, sep: string): (parts: seq<string>)
    requires |sep| > 0
    ensures |parts| >= 1
    decreases |s|
  {
    if |s| == 0 then [[]]
    else if StartsWith(s, sep) then
      StartsWithSlice(s, sep);
      [[]] + Split(s[|sep|..], sep)
    else
      var rest := Split(s[1..], sep);
      [[s[0]] + rest[0]] + rest[1..]
  }

  /** `sep.join(parts)`. */
  function Join(parts: seq<string>, sep: string): string
  {
    if |parts| == 0 then []
    else if |parts| == 1 then parts[0]
    else parts[0] + sep + Join(parts[1..], sep)
  }

  /** A character in neither the pieces nor the separator is not in their join. */
  lemma {:induction false} JoinWithout(parts: seq<string>, sep: string, c: char)
    requires c !in sep && forall i :: 0 <= i < |parts| ==> c !in parts[i]
    ensures c !in Join(parts, sep)
    decreases |parts|
  {
    if |parts| > 1 {
      JoinWithout(parts[1..], sep, c);
    }
  }

  /** The last element of a nonempty sequence (`xs[-1]`). */
  function Last<T>(xs: seq<T>): T
    requires |xs| > 0
  {
    xs[|xs| - 1]
  }

  lemma JoinPrepend(c: char, rest: seq<string>, sep: string)
    requires |rest| >= 1
    ensures Join([[c] + rest[0]] + rest[1..], sep) == [c] + Join(rest, sep)
  {
    var parts := [[c] + rest[0]] + rest[1..];
    if |rest| > 1 {
      assert parts[1..] == rest[1..];
    }
  }

  /** Joining the pieces of a split with the separator gives back the text. */
  lemma {:induction false} SplitJoin(s: string, sep: string)
    requires |sep| > 0
    ensures Join(Split(s, sep), sep) == s
    decreases |s|
  {
    if |s| > 0 {
      if StartsWith(s, sep) {
        StartsWithSlice(s, sep);
        SplitJoin(s[|sep|..], sep);
        assert s == sep + s[|sep|..];
      } else {
        SplitJoin(s[1..], sep);
        JoinPrepend(s[0], Split(s[1..], sep), sep);
        assert s == [s[0]] + s[1..];
      }
    }
  }

  /** `s.replace(pat, rep)` is `rep.join(s.split(pat))`. */
  lemma {:induction false} ReplaceAllIsSplitJoin(s: string, pat: string, rep: string)
    requires |pat| > 0
    ensures ReplaceAll(s, pat, rep) == Join(Split(s, pat), rep)
    decreases |s|
  {
    if |s| > 0 {
      if StartsWith(s, pat) {
        StartsWithSlice(s, pat);
        ReplaceAllIsSplitJoin(s[|pat|..], pat, rep);
      } else {
        ReplaceAllIsSplitJoin(s[1..], pat, rep);
        JoinPrepend(s[0], Split(s[1..], pat), rep);
      }
    }
  }

  /** The text splits into more than one piece exactly when it contains the separator. */
  lemma {:induction false} SplitsIffContains(s: string, sep: string)
    requires |sep| > 0
    ensures |Split(s, sep)| > 1 <==> Contains(s, sep)
    decreases |s|
  {
    if |s| > 0 && !StartsWith(s, sep) {
      SplitsIffContains(s[1..], sep);
    }
  }

  /** A text without the separator splits into itself alone. */
  lemma {:induction false} SplitAbsent(s: string, sep: string)
    requires |sep| > 0 && !Contains(s, sep)
    ensures Split(s, sep) == [s]
    decreases |s|
  {
    if |s| > 0 {
      assert !StartsWith(s, sep);
      SplitAbsent(s[1..], sep);
      assert s == [s[0]] + s[1..];
    }
  }

  /** A text starts with a one-character string exactly when it starts with that character. */
  lemma StartsWithChar(s: string, c: char)
    ensures StartsWith(s, [c]) <==> |s| > 0 && s[0] == c
  {
    assert [c][1..] == [];
  }

  /** One step of splitting on a character. */
  lemma SplitCharStep(s: string, c: char)
    requires |s| > 0
    ensures s[0] == c ==> Split(s, [c]) == [[]] + Split(s[1..], [c])
    ensures s[0] != c ==>
      Split(s, [c]) == [[s[0]] + Split(s[1..], [c])[0]] + Split(s[1..], [c])[1..]
  {
    StartsWithChar(s, c);
  }

  /** Gluing a character to the first piece commutes with appending more pieces. */
  lemma GlueFirst(x: char, r: seq<string>, bs: seq<string>)
    requires |r| >= 1
    ensures [[x] + (r + bs)[0]] + (r + bs)[1..] == ([[x] + r[0]] + r[1..]) + bs
  {
    assert (r + bs)[0] == r[0];
    assert (r + bs)[1..] == r[1..] + bs;
  }

  /** Splitting on a character at one of its occurrences splits each side apart. */
  lemma {:induction false} SplitCharAppend(a: string, b: string, c: char)
    ensures Split(a + [c] + b, [c]) == Split(a, [c]) + Split(b, [c])
    decreases |a|
  {
    var t := a + [c] + b;
    SplitCharStep(t, c);
    if a == [] {
      assert t[0] == c && t[1..] == b;
    } else {
      assert t[0] == a[0] && t[1..] == a[1..] + [c] + b;
      SplitCharStep(a, c);
      SplitCharAppend(a[1..], b, c);
      if a[0] != c {
        GlueFirst(a[0], Split(a[1..], [c]), Split(b, [c]));
      } else {
        assert ([[]] + Split(a[1..], [c])) + Split(b, [c]) == [[]] + (Split(a[1..], [c]) + Split(b, [c]));
      }
    }
  }

  /** A text without the character splits on it into itself alone. */
  lemma SplitCharAbsent(s: string, c: char)
    requires c !in s
    ensures Split(s, [c]) == [s]
  {
    ContainsChar(s, c);
    SplitAbsent(s, [c]);
  }

  /** Splitting a join on its one-character separator gives the pieces back, when
      no piece holds the separator. */
  lemma {:induction false} SplitOfJoin(parts: seq<string>, c: char)
    requires |parts| > 0 && forall i :: 0 <= i < |parts| ==> c !in parts[i]
    ensures Split(Join(parts, [c]), [c]) == parts
    decreases |parts|
  {
    SplitCharAbsent(parts[0], c);
    if |parts| > 1 {
      SplitOfJoin(parts[1..], c);
      SplitCharAppend(parts[0], Join(parts[1..], [c]), c);
      assert parts == [parts[0]] + parts[1..];
    }
  }

  /** A separator that occurs in the text occurs in the text past its first character,
      unless it starts right at the front. */
  lemma ContainsTail(s: string, sep: string)
    requires |sep| > 0 && Contains(s, sep) && !StartsWith(s, sep)
    ensures |s| > 0 && Contains(s[1..], sep)
  {
    var v := Find(s, sep).value;
    assert v > 0 by {
      assert s[0..] == s;
    }
    assert s[1..][v - 1..] == s[v..];
  }

  /** A separator that does not start the text and does not occur past its first
      character does not occur at all. */
  lemma NotContainsStep(s: string, sep: string)
    requires |sep| > 0 && |s| > 0 && !StartsWith(s, sep) && !Contains(s[1..], sep)
    ensures !Contains(s, sep)
  {
    if Contains(s, sep) {
      ContainsTail(s, sep);
    }
  }

  /** `s[k..]`, which follows an occurrence of `sep` and holds none, is the last
      piece of splitting `s` on `sep`. */
  predicate LastPieceAt(s: string, sep: string, k: nat)
    requires |sep| > 0
  {
    |sep| <= k <= |s| && s[k - |sep|..k] == sep &&
    Last(Split(s, sep)) == s[k..] && !Contains(s[k..], sep)
  }

  /** Past a leading separator, the last piece is unchanged. */
  lemma SplitSkipSeparator(s: string, sep: string)
    requires |sep| > 0 && StartsWith(s, sep) && |sep| <= |s|
    ensures Last(Split(s, sep)) == Last(Split(s[|sep|..], sep))
  {
    StartsWithSlice(s, sep);
    var pieces := Split(s[|sep|..], sep);
    assert Split(s, sep) == [[]] + pieces;
  }

  /** Slicing a suffix is slicing the text further on. */
  lemma SliceShift(s: string, d: nat, a: nat, b: nat)
    requires a <= b && d + b <= |s|
    ensures s[d..][a..b] == s[d + a..d + b] && s[d..][b..] == s[d + b..]
  {
  }

  /** A last piece of a suffix is one of the whole text when both splits end alike. */
  lemma LastPieceShift(s: string, sep: string, d: nat, k: nat)
    requires |sep| > 0 && d <= |s| && LastPieceAt(s[d..], sep, k)
    requires Last(Split(s, sep)) == Last(Split(s[d..], sep))
    ensures LastPieceAt(s, sep, d + k)
  {
    SliceShift(s, d, k - |sep|, k);
  }

  /** A last piece of the text after a leading separator is one of the whole text. */
  lemma LastPieceAfterSeparator(s: string, sep: string, k: nat)
    requires |sep| > 0 && StartsWith(s, sep) && |sep| <= |s|
    requires LastPieceAt(s[|sep|..], sep, k)
    ensures LastPieceAt(s, sep, k + |sep|)
  {
    SplitSkipSeparator(s, sep);
    LastPieceShift(s, sep, |sep|, k);
  }

  /** Past a character where the separator does not start, the last piece is unchanged. */
  lemma SplitSkipChar(s: string, sep: string)
    requires |sep| > 0 && |s| > 0 && !StartsWith(s, sep) && Contains(s[1..], sep)
    ensures Last(Split(s, sep)) == Last(Split(s[1..], sep))
  {
    SplitsIffContains(s[1..], sep);
    var rest := Split(s[1..], sep);
    assert Split(s, sep) == [[s[0]] + rest[0]] + rest[1..];
  }

  /** A last piece of the text past its first character is one of the whole text,
      when the separator does not start at the front. */
  lemma LastPieceAfterChar(s: string, sep: string, k: nat)
    requires |sep| > 0 && |s| > 0 && !StartsWith(s, sep) && Contains(s[1..], sep)
    requires LastPieceAt(s[1..], sep, k)
    ensures LastPieceAt(s, sep, k + 1)
  {
    SplitSkipChar(s, sep);
    LastPieceShift(s, sep, 1, k);
  }

  /** The last piece of a split is the text after a last occurrence of the separator,
      and the separator does not occur in it. */
  lemma {:induction false} SplitLast(s: string, sep: string)
    requires |sep| > 0 && Contains(s, sep)
    ensures exists k: nat :: LastPieceAt(s, sep, k)
    decreases |s|
  {
    if StartsWith(s, sep) {
      StartsWithSlice(s, sep);
      var rest := s[|sep|..];
      if Contains(rest, sep) {
        SplitLast(rest, sep);
        var k: nat :| LastPieceAt(rest, sep, k);
        LastPieceAfterSeparator(s, sep, k);
      } else {
        SplitAbsent(rest, sep);
        assert Split(s, sep) == [[]] + Split(rest, sep);
        assert s[|sep| - |sep|..|sep|] == sep;
        assert LastPieceAt(s, sep, |sep|);
      }
    } else {
      ContainsTail(s, sep);
      SplitLast(s[1..], sep);
      var k: nat :| LastPieceAt(s[1..], sep, k);
      LastPieceAfterChar(s, sep, k);
    }
  }

  /** When the separator first starts at `k`, the last piece of a split is that of `s[k..]`. */
  lemma {:induction false} SplitLastFrom(s: string, sep: string, k: nat)
    requires |sep| > 0 && k + |sep| <= |s| && StartsWith(s[k..], sep)
    requires forall j :: 0 <= j < k ==> !StartsWith(s[j..], sep)
    ensures Last(Split(s, sep)) == Last(Split(s[k + |sep|..], sep))
    decreases k
  {
    assert s[0..] == s;
    if k == 0 {
      SplitSkipSeparator(s, sep);
    } else {
      var tail := s[1..];
      forall j | 0 <= j < k - 1
        ensures !StartsWith(tail[j..], sep)
      {
        SliceShift(s, 1, j, j);
      }
      SliceShift(s, 1, k - 1, k - 1);
      SliceShift(s, 1, k - 1 + |sep|, k - 1 + |sep|);
      SplitLastFrom(tail, sep, k - 1);
      ContainsPrefix(s[k..], sep);
      ContainsInSuffix(tail, k - 1, sep);
      SplitSkipChar(s, sep);
    }
  }

  /** A text holding a separator holds the separator's first character. */
  lemma ContainsFirst(s: string, sep: string)
    requires |sep| > 0 && Contains(s, sep)
    ensures sep[0] in s
  {
    var v := Find(s, sep).value;
    assert s[v..][0] == s[v];
  }

  /** No piece of a split on one character holds that character. */
  lemma {:induction false} SplitCharPieces(s: string, c: char)
    ensures forall i :: 0 <= i < |Split(s, [c])| ==> c !in Split(s, [c])[i]
    decreases |s|
  {
    if |s| > 0 {
      if StartsWith(s, [c]) {
        StartsWithSlice(s, [c]);
        SplitCharPieces(s[|[c]|..], c);
      } else {
        SplitCharPieces(s[1..], c);
        StartsWithSlice(s, [c]);
        assert s[0] != c;
      }
    }
  }

  /** Every character of a piece of a split comes from the split text. */
  lemma {:induction false} SplitPiecesWithin(s: string, sep: string)
    requires |sep| > 0
    ensures forall i, c :: 0 <= i < |Split(s, sep)| && c in Split(s, sep)[i] ==> c in s
    decreases |s|
  {
    if |s| > 0 {
      if StartsWith(s, sep) {
        StartsWithSlice(s, sep);
        SplitPiecesWithin(s[|sep|..], sep);
        assert forall c :: c in s[|sep|..] ==> c in s;
      } else {
        SplitPiecesWithin(s[1..], sep);
        assert forall c :: c in s[1..] ==> c in s;
      }
    }
  }

  // ---------------------------------------------------------------------
  // Deleting one character

  /** `s` without any occurrence of `c`. */
  function RemoveChar(s: string, c: char): (r: string)
    ensures forall d :: d in r <==> d in s && d != c
    ensures c !in s ==> r == s
    decreases |s|
  {
    if s == [] then []
    else
      var rest := RemoveChar(s[1..], c);
      assert s == [s[0]] + s[1..];
      if s[0] == c then rest else [s[0]] + rest
  }

  /** `s.replace(c, '')` deletes exactly the occurrences of `c`. */
  lemma {:induction false} ReplaceCharWithNothing(s: string, c: char)
    ensures ReplaceAll(s, [c], "") == RemoveChar(s, c)
    decreases |s|
  {
    if |s| > 0 {
      StartsWithSlice(s, [c]);
      ReplaceCharWithNothing(s[1..], c);
      assert StartsWith(s, [c]) <==> s[0] == c;
      assert s[|[c]|..] == s[1..];
    }
  }

  // ---------------------------------------------------------------------
  // Stripping

  /** The characters Python's `str.isspace` accepts. */
  const Whitespace: set<char> := {
    '\t', '\n', '\U{B}', '\U{C}', '\r', '\U{1C}', '\U{1D}', '\U{1E}', '\U{1F}', ' ',
    '\U{85}', '\U{A0}', '\U{1680}', '\U{2000}', '\U{2001}', '\U{2002}', '\U{2003}',
    '\U{2004}', '\U{2005}', '\U{2006}', '\U{2007}', '\U{2008}', '\U{2009}', '\U{200A}',
    '\U{2028}', '\U{2029}', '\U{202F}', '\U{205F}', '\U{3000}'
  }

  /** `s.lstrip(chars)`: drops the longest prefix made of characters of `chars`. */
  function LStrip(s: string, chars: set<char>): (r: string)
    ensures |r| <= |s|
    decreases |s|
  {
    if |s| > 0 && s[0] in chars then LStrip(s[1..], chars) else s
  }

  /** `lstrip` drops characters of `chars` only, and stops at the first other one. */
  lemma {:induction false} LStripDrops(s: string, chars: set<char>)
    ensures LStrip(s, chars) == s[|s| - |LStrip(s, chars)|..]
    ensures forall i :: 0 <= i < |s| - |LStrip(s, chars)| ==> s[i] in chars
    ensures |LStrip(s, chars)| > 0 ==> LStrip(s, chars)[0] !in chars
    decreases |s|
  {
    if |s| > 0 && s[0] in chars {
      LStripDrops(s[1..], chars);
      assert forall i :: 1 <= i < |s| ==> s[1..][i - 1] == s[i];
    }
  }

  /** `s.rstrip(chars)`: drops the longest suffix made of characters of `chars`. */
  function RStrip(s: string, chars: set<char>): (r: string)
    ensures |r| <= |s|
    decreases |s|
  {
    if |s| > 0 && s[|s| - 1] in chars then RStrip(s[..|s| - 1], chars) else s
  }

  /** `rstrip` drops characters of `chars` only, and stops at the last other one. */
  lemma {:induction false} RStripDrops(s: string, chars: set<char>)
    ensures RStrip(s, chars) == s[..|RStrip(s, chars)|]
    ensures forall i :: |RStrip(s, chars)| <= i < |s| ==> s[i] in chars
    ensures |RStrip(s, chars)| > 0 ==> RStrip(s, chars)[|RStrip(s, chars)| - 1] !in chars
    decreases |s|
  {
    if |s| > 0 && s[|s| - 1] in chars {
      RStripDrops(s[..|s| - 1], chars);
      assert forall i :: 0 <= i < |s| - 1 ==> s[..|s| - 1][i] == s[i];
    }
  }

  /** `rstrip` goes through a tail made of stripped characters. */
  lemma {:induction false} RStripThrough(s: string, t: string, chars: set<char>)
    requires forall i :: 0 <= i < |t| ==> t[i] in chars
    ensures RStrip(s + t, chars) == RStrip(s, chars)
    decreases |t|
  {
    if t == [] {
      assert s + t == s;
    } else {
      var u := s + t;
      assert u[..|u| - 1] == s + t[..|t| - 1];
      RStripThrough(s, t[..|t| - 1], chars);
    }
  }

  /** `s.strip()`: drops leading and trailing whitespace. */
  function Strip(s: string): string
  {
    RStrip(LStrip(s, Whitespace), Whitespace)
  }

  // ---------------------------------------------------------------------
  // Characters

  /** `c.lower()` for ASCII letters. */
  function LowerChar(c: char): char
  {
    if 'A' <= c <= 'Z' then (c as int + 32) as char else c
  }

  /** `s.lower()`, letter by letter. */
  function Lower(s: string): (r: string)
    ensures |r| == |s| && forall i :: 0 <= i < |s| ==> r[i] == LowerChar(s[i])
  {
    if s == [] then [] else [LowerChar(s[0])] + Lower(s[1..])
  }

  /** Lowercasing twice is lowercasing once. */
  lemma LowerTwice(s: string)
    ensures Lower(Lower(s)) == Lower(s)
  {
    assert forall i :: 0 <= i < |s| ==> LowerChar(LowerChar(s[i])) == LowerChar(s[i]);
  }

  /** An ASCII decimal digit: what `\d` and `isdigit` accept here. */
  predicate IsDigit(c: char)
  {
    '0' <= c <= '9'
  }

  predicate AllDigits(s: string)
  {
    forall i :: 0 <= i < |s| ==> IsDigit(s[i])
  }

  /** `s.isdigit()`: nonempty and made of digits only. */
  predicate IsDigits(s: string)
  {
    |s| > 0 && AllDigits(s)
  }
}
