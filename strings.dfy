/** The optional value used throughout the model. */
module Wrappers {
  datatype Option<+T> = None | Some(value: T)
}

/**
 * Facts about strings that the three extractors of ServerWatcher rely on:
 * occurrences of a marker, LF-terminated lines, ASCII digit runs and
 * their decimal value, `String.Trim(' ')` and ASCII case folding.
 */
module Strings {
  import opened Wrappers

  /** `m` occurs in `s` starting at position `p`. */
  predicate OccursAt(s: string, p: nat, m: string) {
    p + |m| <= |s| && s[p..p + |m|] == m
  }

  lemma OccursAtTail(t: string, j: nat, m: string)
    requires |t| > 0
    ensures OccursAt(t, j + 1, m) <==> OccursAt(t[1..], j, m)
  {
    if j + 1 + |m| <= |t| {
      assert t[1..][j..j + |m|] == t[j + 1..j + 1 + |m|];
    }
  }

  /**
   * `m` occurs at `p`, compared one character at a time as a regex engine
   * compares a fixed text (the last character first, which gives the same
   * answer).
   */
  predicate LiteralAt(s: string, p: nat, m: string) {
    p + |m| <= |s| && PrefixAt(s, p, m, |m|)
  }

  /** The first `j` characters of `m` occur at `p` in `s`. */
  predicate PrefixAt(s: string, p: nat, m: string, j: nat)
    requires j <= |m| && p + j <= |s|
  {
    j == 0 || (s[p + j - 1] == m[j - 1] && PrefixAt(s, p, m, j - 1))
  }

  /** The comparison of the first `j` characters is the equality of the two slices. */
  lemma {:induction false} PrefixAtSlices(s: string, p: nat, m: string, j: nat)
    requires j <= |m| && p + j <= |s|
    ensures PrefixAt(s, p, m, j) <==> s[p..p + j] == m[..j]
  {
    if j > 0 {
      PrefixAtSlices(s, p, m, j - 1);
      assert s[p..p + j] == s[p..p + j - 1] + [s[p + j - 1]];
      assert m[..j] == m[..j - 1] + [m[j - 1]];
    }
  }

  /** The character-by-character comparison finds exactly the occurrences. */
  lemma LiteralAtOccurs(s: string, p: nat, m: string)
    ensures LiteralAt(s, p, m) <==> OccursAt(s, p, m)
  {
    if p + |m| <= |s| {
      PrefixAtSlices(s, p, m, |m|);
      assert m[..|m|] == m;
    }
  }

  /** `t` ends with `x`. */
  predicate EndsWith(t: string, x: string) {
    |x| <= |t| && LiteralAt(t, |t| - |x|, x)
  }

  /** A slice of `s` ends with `x` exactly when `x` occurs in `s` where the slice ends. */
  lemma EndsWithSlice(s: string, i: nat, q: nat, x: string)
    requires i <= q <= |s|
    ensures EndsWith(s[i..q], x) <==> i + |x| <= q && LiteralAt(s, q - |x|, x)
  {
    if i + |x| <= q {
      LiteralAtOccurs(s[i..q], q - i - |x|, x);
      LiteralAtOccurs(s, q - |x|, x);
      assert s[i..q][q - i - |x|..q - i] == s[q - |x|..q];
    }
  }

  /** The least position at which `m` occurs in `t`, if there is one. */
  function FirstOccurrence(t: string, m: string): (r: Option<nat>)
    requires m != ""
    ensures r.Some? ==> OccursAt(t, r.value, m)
    ensures r.Some? ==> forall j: nat :: j < r.value ==> !OccursAt(t, j, m)
    ensures r.None? ==> forall j: nat :: !OccursAt(t, j, m)
    decreases |t|
  {
    if OccursAt(t, 0, m) then Some(0)
    else if |t| <= |m| then None
    else
      var rest := FirstOccurrence(t[1..], m);
      forall j: nat ensures OccursAt(t, j + 1, m) <==> OccursAt(t[1..], j, m) {
        OccursAtTail(t, j, m);
      }
      assert forall j: nat :: j > 0 ==> (OccursAt(t, j, m) <==> OccursAt(t[1..], j - 1, m));
      match rest
      case None => None
      case Some(k) => Some(k + 1)
  }

  /** `t` contains `m` somewhere. */
  predicate Contains(t: string, m: string)
    requires m != ""
  {
    FirstOccurrence(t, m).Some?
  }

  /** The rest of `t` after the first occurrence of `m`, if `m` occurs in `t`. */
  function After(t: string, m: string): (r: Option<string>)
    requires m != ""
    ensures r.Some? <==> Contains(t, m)
    ensures r.Some? ==> exists p: nat :: OccursAt(t, p, m) && r.value == t[p + |m|..]
  {
    match FirstOccurrence(t, m)
    case None => None
    case Some(p) => Some(t[p + |m|..])
  }

  /** Where `m` does not start `t`, dropping the first character keeps what follows `m`. */
  lemma AfterTail(t: string, m: string)
    requires m != "" && |t| > 0 && !OccursAt(t, 0, m)
    ensures After(t, m) == After(t[1..], m)
  {
    if |t| > |m| {
      match FirstOccurrence(t[1..], m)
      case None =>
      case Some(k) =>
        assert t[k + 1 + |m|..] == t[1..][k + |m|..];
    }
  }

  /** An occurrence inside the slice `s[i..j]` is an occurrence in `s` that ends by `j`. */
  lemma OccursInSlice(s: string, i: nat, j: nat, p: nat, m: string)
    requires i <= p && i <= j <= |s|
    ensures OccursAt(s[i..j], p - i, m) <==> OccursAt(s, p, m) && p + |m| <= j
  {
    if p + |m| <= j {
      var t := s[i..j];
      var a, b := t[p - i..p - i + |m|], s[p..p + |m|];
      assert |a| == |b|;
      forall k | 0 <= k < |a| ensures a[k] == b[k] {
        assert a[k] == t[p - i + k] == s[p + k];
      }
      assert a == b;
    }
  }

  /**
   * A marker without line feeds that occurs at or after the start `i` of a
   * line ending at `q` lies wholly within that line.
   */
  lemma OccursWithinLine(s: string, i: nat, q: nat, p: nat, m: string)
    requires i <= |s| && NextLineFeed(s, i) == Some(q)
    requires '\n' !in m && i <= p <= q && OccursAt(s, p, m)
    ensures p + |m| <= q
  {
    CharOfOccurrence(s, p, m, q);
  }

  /** A position inside an occurrence of `m` holds the corresponding character of `m`. */
  lemma CharOfOccurrence(s: string, p: nat, m: string, k: nat)
    requires OccursAt(s, p, m) && p <= k
    ensures k < p + |m| ==> m[k - p] == s[k]
  {
    if k < p + |m| {
      assert s[p..p + |m|][k - p] == s[k];
    }
  }

  /** All positions at or after `i` where `m` occurs in `s`, in increasing order. */
  function Occurrences(s: string, m: string, i: nat): (r: seq<nat>)
    requires m != ""
    ensures forall p: nat :: p in r <==> i <= p && OccursAt(s, p, m)
    ensures forall a, b :: 0 <= a < b < |r| ==> r[a] < r[b]
    ensures forall a :: 0 <= a < |r| ==> i <= r[a] && r[a] + |m| <= |s|
    decreases |s| - i
  {
    if i + |m| > |s| then []
    else (if OccursAt(s, i, m) then [i] else []) + Occurrences(s, m, i + 1)
  }

  /** Where no occurrence starts in [i, j), the occurrences from i and from j agree. */
  lemma {:induction false} OccurrencesSkip(s: string, m: string, i: nat, j: nat)
    requires m != "" && i <= j
    requires forall p: nat :: i <= p < j ==> !OccursAt(s, p, m)
    ensures Occurrences(s, m, i) == Occurrences(s, m, j)
    decreases j - i
  {
    if i < j && i + |m| <= |s| {
      OccurrencesSkip(s, m, i + 1, j);
    }
  }

  /** The first line feed at or after position `i` of `s`, if there is one. */
  function NextLineFeed(s: string, i: nat): (r: Option<nat>)
    requires i <= |s|
    ensures r.Some? ==> i <= r.value < |s| && s[r.value] == '\n'
    decreases |s| - i
  {
    if i == |s| then None
    else if s[i] == '\n' then Some(i)
    else NextLineFeed(s, i + 1)
  }

  /** No line feed lies before the next one, nor anywhere after `i` when there is none. */
  lemma {:induction false} NoLineFeedBefore(s: string, i: nat, k: nat)
    requires i <= k < |s|
    requires match NextLineFeed(s, i) case Some(q) => k < q case None => true
    ensures s[k] != '\n'
    decreases k - i
  {
    if i < k {
      NoLineFeedBefore(s, i + 1, k);
    }
  }

  /** Positions without line feeds do not change where the next line feed is. */
  lemma {:induction false} NextLineFeedLater(s: string, i: nat, j: nat)
    requires i <= j <= |s|
    requires match NextLineFeed(s, i) case Some(q) => j <= q case None => true
    ensures NextLineFeed(s, j) == NextLineFeed(s, i)
    decreases j - i
  {
    if i < j {
      NoLineFeedBefore(s, i, i);
      NextLineFeedLater(s, i + 1, j);
    }
  }

  /** From any position of a line, the next line feed is the one that ends the line. */
  lemma SameLine(s: string, i: nat, q: nat, j: nat)
    requires i <= |s| && NextLineFeed(s, i) == Some(q) && i <= j <= q
    ensures NextLineFeed(s, j) == Some(q)
  {
    NextLineFeedLater(s, i, j);
  }

  /** After the last line feed, there is none. */
  lemma NoLineFeedLater(s: string, i: nat, j: nat)
    requires i <= j <= |s| && NextLineFeed(s, i).None?
    ensures NextLineFeed(s, j).None?
  {
    NextLineFeedLater(s, i, j);
  }

  /**
   * The LF-terminated lines of `s` that start at or after `i`, each
   * without its line feed. Text after the last line feed is not a line.
   */
  function LinesFrom(s: string, i: nat): (r: seq<string>)
    requires i <= |s|
    ensures forall k :: 0 <= k < |r| ==> '\n' !in r[k]
    decreases |s| - i
  {
    match NextLineFeed(s, i)
    case None => []
    case Some(q) =>
      forall k | 0 <= k < q - i ensures s[i..q][k] != '\n' {
        NoLineFeedBefore(s, i, i + k);
      }
      [s[i..q]] + LinesFrom(s, q + 1)
  }

  function Lines(s: string): seq<string> {
    LinesFrom(s, 0)
  }

  /** The lines joined back, each followed by a line feed. */
  function Unlines(ls: seq<string>): string {
    if ls == [] then "" else ls[0] + "\n" + Unlines(ls[1..])
  }

  /**
   * The lines of `s` are a partition of `s`: joined back they give the
   * part of `s` up to its last line feed, and what follows holds no line feed.
   */
  lemma {:induction false} LinesCoverText(s: string, i: nat)
    requires i <= |s|
    ensures var u := Unlines(LinesFrom(s, i));
      i + |u| <= |s| && s[i..i + |u|] == u &&
      forall k :: i + |u| <= k < |s| ==> s[k] != '\n'
    decreases |s| - i
  {
    match NextLineFeed(s, i)
    case None =>
      forall k | i <= k < |s| ensures s[k] != '\n' {
        NoLineFeedBefore(s, i, k);
      }
    case Some(q) =>
      LinesCoverText(s, q + 1);
      var ls := LinesFrom(s, i);
      assert ls[1..] == LinesFrom(s, q + 1);
      var u' := Unlines(LinesFrom(s, q + 1));
      assert Unlines(ls) == s[i..q] + "\n" + u';
      LineThenRest(s, i, q, |u'|);
  }

  /** A stretch of text that runs through the line feed at `q` is the line before it, the line feed and what follows. */
  lemma LineThenRest(s: string, i: nat, q: nat, n: nat)
    requires i <= q < |s| && s[q] == '\n' && q + 1 + n <= |s|
    ensures s[i..q + 1 + n] == s[i..q] + "\n" + s[q + 1..q + 1 + n]
  {
  }

  predicate IsDigit(c: char) {
    '0' <= c <= '9'
  }

  predicate AllDigits(s: string) {
    forall k :: 0 <= k < |s| ==> IsDigit(s[k])
  }

  function DigitValue(c: char): (v: nat)
    requires IsDigit(c)
    ensures v < 10
  {
    c as int - '0' as int
  }

  function DigitChar(v: nat): (c: char)
    requires v < 10
    ensures IsDigit(c) && DigitValue(c) == v
  {
    ('0' as int + v) as char
  }

  /** The end of the maximal run of ASCII digits that starts at `i`. */
  function DigitRunEnd(s: string, i: nat): (e: nat)
    requires i <= |s|
    ensures i <= e <= |s|
    ensures forall k :: i <= k < e ==> IsDigit(s[k])
    ensures e == |s| || !IsDigit(s[e])
    decreases |s| - i
  {
    if i < |s| && IsDigit(s[i]) then DigitRunEnd(s, i + 1) else i
  }

  /** The number an ASCII digit string denotes in decimal. */
  function DecimalValue(ds: string): nat
    requires AllDigits(ds)
  {
    if ds == [] then 0
    else DecimalValue(ds[..|ds| - 1]) * 10 + DigitValue(ds[|ds| - 1])
  }

  /** The shortest decimal rendering of `n`. */
  function DecimalDigits(n: nat): (ds: string)
    ensures AllDigits(ds) && ds != []
  {
    if n < 10 then [DigitChar(n)] else DecimalDigits(n / 10) + [DigitChar(n % 10)]
  }

  /** Reading back a rendered number gives the number. */
  lemma {:induction false} DecimalRoundTrip(n: nat)
    ensures DecimalValue(DecimalDigits(n)) == n
  {
    if n >= 10 {
      var ds := DecimalDigits(n);
      assert ds[..|ds| - 1] == DecimalDigits(n / 10);
      DecimalRoundTrip(n / 10);
    }
  }

  /** Leading zeros do not change the decimal value. */
  lemma {:induction false} DecimalLeadingZero(ds: string)
    requires AllDigits(ds)
    ensures AllDigits("0" + ds) && DecimalValue("0" + ds) == DecimalValue(ds)
    decreases |ds|
  {
    if ds != [] {
      var zs := "0" + ds;
      assert zs[..|zs| - 1] == "0" + ds[..|ds| - 1];
      DecimalLeadingZero(ds[..|ds| - 1]);
    }
  }

  /** ASCII lower-casing; every other character is left as it is. */
  function Lower(c: char): char {
    if 'A' <= c <= 'Z' then (c as int + 32) as char else c
  }

  /** `x` and `y` are equal up to the case of ASCII letters. */
  predicate SameLetters(x: string, y: string) {
    |x| == |y| && forall k :: 0 <= k < |x| ==> Lower(x[k]) == Lower(y[k])
  }

  /** The number of spaces that `s` starts with. */
  function LeadingSpaces(s: string): (n: nat)
    ensures n <= |s|
    ensures forall k :: 0 <= k < n ==> s[k] == ' '
    ensures n == |s| || s[n] != ' '
  {
    if s != [] && s[0] == ' ' then 1 + LeadingSpaces(s[1..]) else 0
  }

  /** The length of `s` without the spaces that it ends with. */
  function TrailingStart(s: string): (n: nat)
    ensures n <= |s|
    ensures forall k :: n <= k < |s| ==> s[k] == ' '
    ensures n == 0 || s[n - 1] != ' '
  {
    if s != [] && s[|s| - 1] == ' ' then TrailingStart(s[..|s| - 1]) else |s|
  }

  /**
   * `String.Trim(' ')`: removes the space characters (U+0020 only) at both
   * ends; tabs, carriage returns and other whitespace are kept.
   */
  function TrimSpaces(s: string): (r: string)
    ensures LeadingSpaces(s) + |r| <= |s|
    ensures r == s[LeadingSpaces(s)..LeadingSpaces(s) + |r|]
    ensures forall k :: LeadingSpaces(s) + |r| <= k < |s| ==> s[k] == ' '
    ensures r == [] || (r[0] != ' ' && r[|r| - 1] != ' ')
  {
    var t := s[LeadingSpaces(s)..];
    t[..TrailingStart(t)]
  }
}
