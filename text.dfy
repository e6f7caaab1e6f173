/**
 * The Python string operations the build helpers rely on, on `string` (`seq<char>`):
 * str.find, str.replace, str.split (with and without a separator), str.strip, str.join,
 * the str.format alignments '{:>w}' and '{:^w}', and Python's clamping of slice bounds.
 * Character classes are the ASCII part of Python's isspace/isdigit/isalpha.
 */
module Text {

  // ---------------------------------------------------------------------------
  // Character classes

  /**
   * Python's whitespace in ASCII: space, tab, newline, vertical tab, form feed, carriage return,
   * and the file, group, record and unit separators 0x1C-0x1F
   */
  predicate IsSpace(c: char) { c == ' ' || ('\t' <= c <= '\r') || ('\U{1C}' <= c <= '\U{1F}') }

  predicate IsDigit(c: char) { '0' <= c <= '9' }

  predicate IsAlpha(c: char) { ('a' <= c <= 'z') || ('A' <= c <= 'Z') }

  predicate NoSpace(s: string) { forall k :: 0 <= k < |s| ==> !IsSpace(s[k]) }

  predicate AllSpace(s: string) { forall k :: 0 <= k < |s| ==> IsSpace(s[k]) }

  /** Python's str.isdigit(): at least one character, and every character a digit */
  predicate IsDigits(s: string) { |s| > 0 && forall k :: 0 <= k < |s| ==> IsDigit(s[k]) }

  function DigitValue(c: char): nat
    requires IsDigit(c)
  {
    c as int - '0' as int
  }

  /** Python's int() of a string of decimal digits (leading zeros allowed) */
  function DecimalValue(s: string): nat
    requires forall k :: 0 <= k < |s| ==> IsDigit(s[k])
    decreases |s|
  {
    if |s| == 0 then 0 else 10 * DecimalValue(s[..|s| - 1]) + DigitValue(s[|s| - 1])
  }

  /** Python's str() of a non-negative int */
  function DecimalText(n: nat): (s: string)
    ensures IsDigits(s)
  {
    if n < 10 then [('0' as int + n) as char]
    else DecimalText(n / 10) + [('0' as int + n % 10) as char]
  }

  /** Reading back the decimal text of a number gives the number. */
  lemma {:induction false} DecimalRoundTrip(n: nat)
    ensures DecimalValue(DecimalText(n)) == n
  {
    if n >= 10 {
      var s := DecimalText(n);
      assert s[..|s| - 1] == DecimalText(n / 10);
      DecimalRoundTrip(n / 10);
    }
  }

  // ---------------------------------------------------------------------------
  // str.strip()

  /** `s` without its leading whitespace (Python's str.lstrip()) */
  function TrimLeft(s: string): (r: string)
    ensures |r| <= |s| && r == s[|s| - |r|..]
    ensures AllSpace(s[..|s| - |r|])
    ensures r == [] || !IsSpace(r[0])
    decreases |s|
  {
    if |s| > 0 && IsSpace(s[0]) then
      var r := TrimLeft(s[1..]);
      TrimLeftStep(s, r);
      r
    else s
  }

  /** `s` without its trailing whitespace (Python's str.rstrip()) */
  function TrimRight(s: string): (r: string)
    ensures |r| <= |s| && r == s[..|r|]
    ensures AllSpace(s[|r|..])
    ensures r == [] || !IsSpace(r[|r| - 1])
    decreases |s|
  {
    if |s| > 0 && IsSpace(s[|s| - 1]) then
      var r := TrimRight(s[..|s| - 1]);
      TrimRightStep(s, r);
      r
    else s
  }

  lemma TrimLeftStep(s: string, r: string)
    requires |s| > 0 && IsSpace(s[0])
    requires |r| <= |s| - 1 && r == s[1..][|s| - 1 - |r|..] && AllSpace(s[1..][..|s| - 1 - |r|])
    ensures r == s[|s| - |r|..] && AllSpace(s[..|s| - |r|])
  {
    var n := |s| - |r|;
    assert s[1..][|s| - 1 - |r|..] == s[n..];
    forall k | 0 <= k < n ensures IsSpace(s[..n][k]) {
      if k > 0 {
        assert s[..n][k] == s[1..][..n - 1][k - 1];
      }
    }
  }

  lemma TrimRightStep(s: string, r: string)
    requires |s| > 0 && IsSpace(s[|s| - 1])
    requires |r| <= |s| - 1 && r == s[..|s| - 1][..|r|] && AllSpace(s[..|s| - 1][|r|..])
    ensures r == s[..|r|] && AllSpace(s[|r|..])
  {
    assert s[..|s| - 1][..|r|] == s[..|r|];
    forall k | 0 <= k < |s| - |r| ensures IsSpace(s[|r|..][k]) {
      if k < |s| - 1 - |r| {
        assert s[|r|..][k] == s[..|s| - 1][|r|..][k];
      }
    }
  }

  /** Python's str.strip() */
  function Strip(s: string): string
  {
    TrimRight(TrimLeft(s))
  }

  /** Cutting a whitespace run off the front that ends where a non-space begins is what TrimLeft does. */
  lemma {:induction false} TrimLeftAt(s: string, k: nat)
    requires k <= |s| && AllSpace(s[..k])
    requires k == |s| || !IsSpace(s[k])
    ensures TrimLeft(s) == s[k..]
    decreases k
  {
    if k > 0 {
      assert IsSpace(s[..k][0]);
      assert s[1..][..k - 1] == s[..k][1..];
      TrimLeftAt(s[1..], k - 1);
    }
  }

  /** Cutting a whitespace run off the back that starts after a non-space is what TrimRight does. */
  lemma {:induction false} TrimRightAt(s: string, k: nat)
    requires k <= |s| && AllSpace(s[k..])
    requires k == 0 || !IsSpace(s[k - 1])
    ensures TrimRight(s) == s[..k]
    decreases |s| - k
  {
    if k < |s| {
      assert IsSpace(s[k..][|s| - 1 - k]);
      var s' := s[..|s| - 1];
      assert s'[k..] == s[k..][..|s| - 1 - k];
      TrimRightAt(s', k);
      assert s'[..k] == s[..k];
    }
  }

  lemma ConcatAssoc(a: string, b: string, c: string)
    ensures a + b + c == a + (b + c)
  {
  }

  /** Stripping whitespace runs off a text that begins and ends with a non-space leaves that text. */
  lemma StripPadded(lead: string, w: string, trail: string)
    requires AllSpace(lead) && AllSpace(trail)
    requires w == [] || (!IsSpace(w[0]) && !IsSpace(w[|w| - 1]))
    ensures Strip(lead + w + trail) == w
  {
    var s := lead + w + trail;
    if w == [] {
      assert AllSpace(s);
      TrimLeftAt(s, |s|);
    } else {
      assert s[..|lead|] == lead;
      assert s[|lead|] == w[0];
      TrimLeftAt(s, |lead|);
      var t := s[|lead|..];
      assert t == w + trail;
      assert t[|w|..] == trail;
      assert t[|w| - 1] == w[|w| - 1];
      TrimRightAt(t, |w|);
      assert t[..|w|] == w;
    }
  }

  /** Stripping only removes characters. */
  lemma StripInside(x: string)
    ensures forall c :: c in Strip(x) ==> c in x
  {
    var l := TrimLeft(x);
    forall c | c in Strip(x) ensures c in x {
      var k :| 0 <= k < |Strip(x)| && Strip(x)[k] == c;
      assert l[k] == c;
      assert x[|x| - |l| + k] == c;
    }
  }

  /** Python's str.strip() leaves a word as it is. */
  lemma StripWord(w: string)
    requires w != [] && NoSpace(w)
    ensures Strip(w) == w
  {
    StripPadded([], w, []);
    assert [] + w + [] == w;
  }

  /** Stripping a stripped text changes nothing. */
  lemma StripIdempotent(s: string)
    ensures Strip(Strip(s)) == Strip(s)
  {
    var l := TrimLeft(s);
    var r := TrimRight(l);
    if r != [] {
      assert r[0] == l[0];
      StripPadded([], r, []);
      assert [] + r + [] == r;
    } else {
      StripPadded([], [], []);
    }
  }

  // ---------------------------------------------------------------------------
  // str.find()

  /** `pat` occurs in `s` starting at position `i` */
  predicate OccursAt(s: string, pat: string, i: int)
  {
    0 <= i && i + |pat| <= |s| && s[i..i + |pat|] == pat
  }

  function FindFrom(s: string, pat: string, i: nat): (r: int)
    requires i <= |s|
    ensures r == -1 || (i <= r && OccursAt(s, pat, r))
    ensures r >= 0 ==> forall j :: i <= j < r ==> !OccursAt(s, pat, j)
    ensures r == -1 ==> forall j :: i <= j ==> !OccursAt(s, pat, j)
    decreases |s| - i
  {
    if i + |pat| > |s| then -1
    else if s[i..i + |pat|] == pat then i
    else FindFrom(s, pat, i + 1)
  }

  /** Python's str.find(): the first position where `pat` occurs, or -1 */
  function Find(s: string, pat: string): (r: int)
    ensures -1 <= r
    ensures r >= 0 ==> OccursAt(s, pat, r) && forall j :: 0 <= j < r ==> !OccursAt(s, pat, j)
    ensures r == -1 <==> forall j :: !OccursAt(s, pat, j)
  {
    FindFrom(s, pat, 0)
  }

  /** Python's `pat in s` on strings */
  predicate Contains(s: string, pat: string)
    decreases |s|
  {
    if |s| < |pat| then false else s[..|pat|] == pat || Contains(s[1..], pat)
  }

  /** `pat in s` holds exactly when str.find does not return -1. */
  lemma ContainsFind(s: string, pat: string)
    ensures Contains(s, pat) <==> Find(s, pat) >= 0
  {
    ContainsOccurs(s, pat);
  }

  lemma {:induction false} ContainsOccurs(s: string, pat: string)
    ensures Contains(s, pat) <==> exists j :: OccursAt(s, pat, j)
    decreases |s|
  {
    if |s| >= |pat| && s[..|pat|] != pat {
      ContainsOccurs(s[1..], pat);
      if Contains(s[1..], pat) {
        var j :| OccursAt(s[1..], pat, j);
        OccursShift(s, pat, 1, j);
      }
      if j :| OccursAt(s, pat, j) {
        assert j != 0;
        assert s[1..][j - 1..j - 1 + |pat|] == s[j..j + |pat|];
        assert OccursAt(s[1..], pat, j - 1);
      }
    } else if |s| >= |pat| {
      assert OccursAt(s, pat, 0);
    }
  }

  /**
   * Editing a text only after the end of the first occurrence of `pat` leaves
   * that occurrence the first one.
   */
  lemma FindStable(t: string, r: string, pat: string, k: nat)
    requires Find(t, pat) >= 0 && Find(t, pat) + |pat| <= k
    requires k <= |t| && k <= |r| && r[..k] == t[..k]
    ensures Find(r, pat) == Find(t, pat)
  {
    var p := Find(t, pat);
    SameWindow(t, r, k, p, |pat|);
    assert OccursAt(r, pat, p);
    forall j | 0 <= j < p
      ensures !OccursAt(r, pat, j)
    {
      assert !OccursAt(t, pat, j);
      SameWindow(t, r, k, j, |pat|);
    }
  }

  /** Two texts that agree up to `k` agree on every window that ends by `k`. */
  lemma SameWindow(t: string, r: string, k: nat, j: nat, n: nat)
    requires k <= |t| && k <= |r| && r[..k] == t[..k] && j + n <= k
    ensures r[j..j + n] == t[j..j + n]
  {
    assert r[j..j + n] == r[..k][j..j + n];
    assert t[j..j + n] == t[..k][j..j + n];
  }

  // ---------------------------------------------------------------------------
  // str.split(c) and str.join

  function IndexOf(s: string, c: char): (i: nat)
    requires c in s
    ensures i < |s| && s[i] == c
    ensures forall k :: 0 <= k < i ==> s[k] != c
  {
    if s[0] == c then 0 else 1 + IndexOf(s[1..], c)
  }

  /** Python's str.split(c) with a one-character separator: always at least one part */
  function Split(s: string, c: char): (parts: seq<string>)
    ensures |parts| >= 1
    ensures forall k :: 0 <= k < |parts| ==> c !in parts[k]
    decreases |s|
  {
    if c in s then
      var i := IndexOf(s, c);
      assert c !in s[..i] by {
        forall k | 0 <= k < i ensures s[..i][k] != c { }
      }
      [s[..i]] + Split(s[i + 1..], c)
    else [s]
  }

  /** Python's sep.join(xs) */
  function Join(xs: seq<string>, sep: string): string
  {
    if |xs| == 0 then "" else if |xs| == 1 then xs[0] else xs[0] + sep + Join(xs[1..], sep)
  }

  /** Python's ''.join(x + sep for x in xs): every item followed by `sep` */
  function Terminated(xs: seq<string>, sep: string): string
  {
    if xs == [] then "" else xs[0] + sep + Terminated(xs[1..], sep)
  }

  /** `x + suffix` for every item of `xs` */
  function Suffixed(xs: seq<string>, suffix: string): (r: seq<string>)
    ensures |r| == |xs| && forall k :: 0 <= k < |xs| ==> r[k] == xs[k] + suffix
  {
    if xs == [] then [] else [xs[0] + suffix] + Suffixed(xs[1..], suffix)
  }

  lemma SuffixedCons(x: string, xs: seq<string>, suffix: string)
    ensures Suffixed([x] + xs, suffix) == [x + suffix] + Suffixed(xs, suffix)
  {
    assert ([x] + xs)[1..] == xs;
  }

  /** A join of more than one item starts with the first item and the separator. */
  lemma JoinCons(x: string, xs: seq<string>, sep: string)
    requires xs != []
    ensures Join([x] + xs, sep) == x + sep + Join(xs, sep)
  {
    assert ([x] + xs)[1..] == xs;
  }

  /** The first part of a split runs up to the first separator. */
  lemma SplitFirst(s: string, c: char)
    requires c in s
    ensures Split(s, c) == [s[..IndexOf(s, c)]] + Split(s[IndexOf(s, c) + 1..], c)
  {
  }

  lemma CutAt(s: string, i: nat)
    requires i < |s|
    ensures s == s[..i] + [s[i]] + s[i + 1..]
  {
  }

  lemma SplitAt(a: string, b: string, c: char)
    requires c !in a
    ensures Split(a + [c] + b, c) == [a] + Split(b, c)
  {
    var s := a + [c] + b;
    assert s[|a|] == c;
    assert forall k :: 0 <= k < |a| ==> s[k] == a[k] && a[k] != c;
    assert IndexOf(s, c) == |a|;
    assert s[..|a|] == a && s[|a| + 1..] == b;
  }

  /** A text with one separator splits into the two parts around it. */
  lemma SplitPair(a: string, b: string, c: char)
    requires c !in a && c !in b
    ensures Split(a + [c] + b, c) == [a, b]
  {
    SplitAt(a, b, c);
    assert Split(b, c) == [b];
  }

  /** Joining the parts of a split with the separator gives back the text. */
  lemma {:induction false} JoinSplit(s: string, c: char)
    ensures Join(Split(s, c), [c]) == s
    decreases |s|
  {
    if c in s {
      var i := IndexOf(s, c);
      var parts := Split(s[i + 1..], c);
      SplitFirst(s, c);
      JoinCons(s[..i], parts, [c]);
      JoinSplit(s[i + 1..], c);
      CutAt(s, i);
    } else {
      assert Split(s, c) == [s];
    }
  }

  /**
   * Splitting a join whose separator ends in `c` gives the items back, each but the last
   * still carrying the rest of the separator.
   */
  lemma {:induction false} SplitJoinSuffixed(xs: seq<string>, pre: string, c: char)
    requires |xs| >= 1 && c !in pre
    requires forall k :: 0 <= k < |xs| ==> c !in xs[k]
    ensures Split(Join(xs, pre + [c]), c) == Suffixed(xs[..|xs| - 1], pre) + [xs[|xs| - 1]]
  {
    if |xs| > 1 {
      var rest := xs[1..];
      var tail := Join(rest, pre + [c]);
      JoinStep(xs, pre, c);
      assert c !in xs[0] + pre;
      SplitAt(xs[0] + pre, tail, c);
      SplitJoinSuffixed(rest, pre, c);
      SuffixedFront(xs, pre);
    }
  }

  lemma JoinStep(xs: seq<string>, pre: string, c: char)
    requires |xs| > 1
    ensures Join(xs, pre + [c]) == (xs[0] + pre) + [c] + Join(xs[1..], pre + [c])
  {
    assert xs == [xs[0]] + xs[1..];
    JoinCons(xs[0], xs[1..], pre + [c]);
  }

  lemma SuffixedFront(xs: seq<string>, suffix: string)
    requires |xs| > 1
    ensures Suffixed(xs[..|xs| - 1], suffix) + [xs[|xs| - 1]]
      == [xs[0] + suffix] + (Suffixed(xs[1..][..|xs| - 2], suffix) + [xs[1..][|xs| - 2]])
  {
    assert xs[..|xs| - 1] == [xs[0]] + xs[1..][..|xs| - 2];
    SuffixedCons(xs[0], xs[1..][..|xs| - 2], suffix);
  }

  /** Splitting on the separator undoes a join of separator-free items. */
  lemma {:induction false} SplitJoin(xs: seq<string>, c: char)
    requires |xs| >= 1
    requires forall k :: 0 <= k < |xs| ==> c !in xs[k]
    ensures Split(Join(xs, [c]), c) == xs
  {
    if |xs| > 1 {
      SplitAt(xs[0], Join(xs[1..], [c]), c);
      SplitJoin(xs[1..], c);
    }
  }

  lemma {:induction false} TerminatedJoin(xs: seq<string>, sep: string)
    requires xs != []
    ensures Terminated(xs, sep) == Join(xs, sep) + sep
  {
    if |xs| > 1 {
      TerminatedJoin(xs[1..], sep);
    }
  }

  /** The items but the last each followed by the separator, then the last item, make the join. */
  lemma {:induction false} TerminatedThenLast(xs: seq<string>, sep: string)
    requires xs != []
    ensures Terminated(xs[..|xs| - 1], sep) + xs[|xs| - 1] == Join(xs, sep)
    decreases |xs|
  {
    var n := |xs|;
    if n > 1 {
      var front := xs[..n - 1];
      assert front[1..] == xs[1..][..n - 2];
      assert Terminated(front, sep) == xs[0] + sep + Terminated(xs[1..][..n - 2], sep);
      TerminatedThenLast(xs[1..], sep);
    } else {
      assert xs[..0] == [];
    }
  }

  // ---------------------------------------------------------------------------
  // str.split() without a separator

  /** Length of the run of non-whitespace characters that `s` starts with */
  function WordLen(s: string): (n: nat)
    ensures n <= |s|
    ensures forall k :: 0 <= k < n ==> !IsSpace(s[k])
    ensures n < |s| ==> IsSpace(s[n])
  {
    if s == [] || IsSpace(s[0]) then 0 else 1 + WordLen(s[1..])
  }

  /** Python's str.split(): the maximal runs of non-whitespace characters */
  function Words(s: string): (ws: seq<string>)
    ensures forall k :: 0 <= k < |ws| ==> ws[k] != [] && NoSpace(ws[k])
    decreases |s|
  {
    if s == [] then []
    else if IsSpace(s[0]) then Words(s[1..])
    else
      var n := WordLen(s);
      [s[..n]] + Words(s[n..])
  }

  lemma {:induction false} WordLenConcat(x: string, y: string)
    requires NoSpace(x)
    requires y == [] || IsSpace(y[0])
    ensures WordLen(x + y) == |x|
  {
    if x != [] {
      assert (x + y)[1..] == x[1..] + y;
      WordLenConcat(x[1..], y);
    }
  }

  lemma {:induction false} WordsSkipSpace(ws: string, s: string)
    requires AllSpace(ws)
    ensures Words(ws + s) == Words(s)
  {
    if ws != [] {
      assert (ws + s)[0] == ws[0];
      assert (ws + s)[1..] == ws[1..] + s;
      WordsSkipSpace(ws[1..], s);
    } else {
      assert ws + s == s;
    }
  }

  lemma {:induction false} WordLenTrail(s: string, ws: string)
    requires AllSpace(ws)
    ensures WordLen(s + ws) == WordLen(s)
    decreases |s|
  {
    if s == [] {
      assert s + ws == ws;
    } else if !IsSpace(s[0]) {
      assert (s + ws)[1..] == s[1..] + ws;
      WordLenTrail(s[1..], ws);
    }
  }

  lemma {:induction false} WordsTrailSpace(s: string, ws: string)
    requires AllSpace(ws)
    ensures Words(s + ws) == Words(s)
    decreases |s|
  {
    if s == [] {
      WordsSkipSpace(ws, []);
      assert s + ws == ws + [];
    } else if IsSpace(s[0]) {
      assert (s + ws)[1..] == s[1..] + ws;
      WordsTrailSpace(s[1..], ws);
    } else {
      var n := WordLen(s);
      WordLenTrail(s, ws);
      assert (s + ws)[..n] == s[..n];
      assert (s + ws)[n..] == s[n..] + ws;
      WordsTrailSpace(s[n..], ws);
    }
  }

  /** Python's str.split() gives the same words with or without a strip() before it. */
  lemma WordsStrip(x: string)
    ensures Words(Strip(x)) == Words(x)
  {
    WordsTrimLeft(x);
    WordsTrimRight(TrimLeft(x));
  }

  lemma WordsTrimLeft(x: string)
    ensures Words(TrimLeft(x)) == Words(x)
  {
    var l := TrimLeft(x);
    var lead := x[..|x| - |l|];
    assert x == lead + l;
    WordsSkipSpace(lead, l);
  }

  lemma WordsTrimRight(l: string)
    ensures Words(TrimRight(l)) == Words(l)
  {
    var r := TrimRight(l);
    var trail := l[|r|..];
    assert l == r + trail;
    WordsTrailSpace(r, trail);
  }

  /** The first word of a word followed by the start of a whitespace run */
  lemma WordsFirst(x: string, y: string)
    requires x != [] && NoSpace(x)
    requires y == [] || IsSpace(y[0])
    ensures Words(x + y) == [x] + Words(y)
  {
    WordLenConcat(x, y);
    assert (x + y)[..|x|] == x && (x + y)[|x|..] == y;
  }

  /** Splitting a join of words by whitespace separators gives the words back. */
  lemma {:induction false} WordsJoin(xs: seq<string>, sep: string)
    requires sep != [] && AllSpace(sep)
    requires forall k :: 0 <= k < |xs| ==> xs[k] != [] && NoSpace(xs[k])
    ensures Words(Join(xs, sep)) == xs
  {
    if |xs| == 1 {
      WordsFirst(xs[0], []);
      assert xs[0] + [] == xs[0];
    } else if |xs| > 1 {
      var rest := Join(xs[1..], sep);
      assert Join(xs, sep) == xs[0] + (sep + rest);
      WordsFirst(xs[0], sep + rest);
      WordsSkipSpace(sep, rest);
      WordsJoin(xs[1..], sep);
    }
  }

  // ---------------------------------------------------------------------------
  // str.replace()

  /** Python's str.replace(pat, rep) when `pat` is empty: `rep` between characters and at both ends */
  function Interleave(s: string, rep: string): string
  {
    if s == [] then rep else rep + [s[0]] + Interleave(s[1..], rep)
  }

  /** Python's str.replace(pat, rep): every occurrence, scanned left to right without overlap */
  function ReplaceAll(s: string, pat: string, rep: string): string
    decreases |s|
  {
    if pat == [] then Interleave(s, rep)
    else if s == [] then []
    else if OccursAt(s, pat, 0) then rep + ReplaceAll(s[|pat|..], pat, rep)
    else [s[0]] + ReplaceAll(s[1..], pat, rep)
  }

  lemma OccursShift(s: string, pat: string, d: nat, j: int)
    requires d <= |s| && OccursAt(s[d..], pat, j)
    ensures OccursAt(s, pat, j + d)
  {
    assert s[j + d..j + d + |pat|] == s[d..][j..j + |pat|];
  }

  /** Replacing a pattern that does not occur changes nothing. */
  lemma {:induction false} ReplaceAbsent(s: string, pat: string, rep: string)
    requires pat != []
    requires forall j :: !OccursAt(s, pat, j)
    ensures ReplaceAll(s, pat, rep) == s
    decreases |s|
  {
    if s != [] {
      forall j ensures !OccursAt(s[1..], pat, j) {
        if OccursAt(s[1..], pat, j) { OccursShift(s, pat, 1, j); }
      }
      ReplaceAbsent(s[1..], pat, rep);
    }
  }

  /** Replacing a single character acts on each part of a concatenation separately. */
  lemma {:induction false} ReplaceCharConcat(x: string, y: string, c: char, rep: string)
    ensures ReplaceAll(x + y, [c], rep) == ReplaceAll(x, [c], rep) + ReplaceAll(y, [c], rep)
    decreases |x|
  {
    if x != [] {
      var s := x + y;
      assert s[1..] == x[1..] + y;
      assert s[0..1] == [x[0]] == x[0..1];
      ReplaceCharConcat(x[1..], y, c, rep);
      if x[0] == c {
        assert ReplaceAll(s, [c], rep) == rep + ReplaceAll(s[1..], [c], rep);
        assert ReplaceAll(x, [c], rep) == rep + ReplaceAll(x[1..], [c], rep);
      } else {
        assert ReplaceAll(s, [c], rep) == [x[0]] + ReplaceAll(s[1..], [c], rep);
        assert ReplaceAll(x, [c], rep) == [x[0]] + ReplaceAll(x[1..], [c], rep);
      }
    } else {
      assert x + y == y;
    }
  }

  /** Removing every `c` (Python's s.replace(c, '')) leaves no `c` and adds no character. */
  lemma {:induction false} RemoveChar(x: string, c: char)
    ensures c !in ReplaceAll(x, [c], "")
    ensures forall d :: d in ReplaceAll(x, [c], "") ==> d in x
    decreases |x|
  {
    if x != [] {
      RemoveChar(x[1..], c);
      assert x[0..1] == [x[0]];
      if x[0] == c {
        assert ReplaceAll(x, [c], "") == "" + ReplaceAll(x[1..], [c], "");
      } else {
        assert ReplaceAll(x, [c], "") == [x[0]] + ReplaceAll(x[1..], [c], "");
      }
    }
  }

  /** A text without `c` has no occurrence of [c]. */
  lemma CharAbsent(x: string, c: char)
    requires c !in x
    ensures forall j :: !OccursAt(x, [c], j)
  {
    forall j ensures !OccursAt(x, [c], j) {
      if 0 <= j < |x| {
        assert x[j..j + 1][0] == x[j];
      }
    }
  }

  // ---------------------------------------------------------------------------
  // Python slicing and str.format alignment

  /** The position that slice bound `k` selects in a sequence of length `n` (negative counts from the end) */
  function PyIndex(n: nat, k: int): (i: nat)
    ensures i <= n
    ensures 0 <= k <= n ==> i == k
  {
    if k < 0 then (if n + k < 0 then 0 else n + k) else if k > n then n else k
  }

  /** Python's s[:k] */
  function Take<T>(s: seq<T>, k: int): seq<T>
  {
    s[..PyIndex(|s|, k)]
  }

  /** Python's s[k:] */
  function Drop<T>(s: seq<T>, k: int): seq<T>
  {
    s[PyIndex(|s|, k)..]
  }

  /** Python's c * n for a one-character string */
  function Repeat(c: char, n: nat): (r: string)
    ensures |r| == n && forall k :: 0 <= k < n ==> r[k] == c
  {
    seq(n, _ => c)
  }

  /** Python's '{:>w}'.format(s): spaces in front up to width `w`; a longer text is kept whole */
  function PadLeft(s: string, w: nat): string
  {
    if |s| < w then Repeat(' ', w - |s|) + s else s
  }

  /** Python's '{:^w}'.format(s): the padding split in two, the odd space going to the right */
  function Center(s: string, w: nat): string
  {
    if |s| < w then
      var pad := w - |s|;
      Repeat(' ', pad / 2) + s + Repeat(' ', pad - pad / 2)
    else s
  }

  /** Right alignment keeps the text at the end, fills exactly up to the width and never cuts. */
  lemma PadLeftShape(s: string, w: nat)
    ensures var r := PadLeft(s, w);
      |r| == (if |s| < w then w else |s|) && r[|r| - |s|..] == s && AllSpace(r[..|r| - |s|])
  {
  }

  /** Centring: the text sits between two space runs whose lengths differ by at most one. */
  lemma CenterShape(s: string, w: nat)
    ensures var r := Center(s, w);
      |r| == (if |s| < w then w else |s|) &&
      exists left: nat, right: nat ::
        left <= right <= left + 1 && r == Repeat(' ', left) + s + Repeat(' ', right) &&
        (|s| >= w ==> left == 0 && right == 0)
  {
    if |s| < w {
      var pad := w - |s|;
      assert pad / 2 <= pad - pad / 2 <= pad / 2 + 1;
      assert Center(s, w) == Repeat(' ', pad / 2) + s + Repeat(' ', pad - pad / 2);
    } else {
      assert Center(s, w) == Repeat(' ', 0) + s + Repeat(' ', 0);
    }
  }
}
