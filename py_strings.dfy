/** The Python built-ins on strings and lists that the pipeline relies on,
    written out: whitespace, str.strip, str.split, str.join, str.lower,
    slicing and indexing with Python's negative-index and clamping rules. */
module PyStrings {

  /** The Python exceptions the modelled code can raise. */
  datatype Error = IndexError | ValueError

  datatype Result<+T> = Ok(value: T) | Err(error: Error)

  /** str.isspace() for one character: the characters that str.split() and
      str.strip() (called without arguments) treat as whitespace. */
  predicate IsSpace(c: char) {
    ('\t' <= c <= '\r') || ('\U{1C}' <= c <= ' ') || c == '\U{85}' || c == '\U{A0}'
    || c == '\U{1680}' || ('\U{2000}' <= c <= '\U{200A}') || c == '\U{2028}' || c == '\U{2029}'
    || c == '\U{202F}' || c == '\U{205F}' || c == '\U{3000}'
  }

  predicate NoSpace(s: string) {
    forall i :: 0 <= i < |s| ==> !IsSpace(s[i])
  }

  /** A non-empty string with no whitespace at either end: str.strip() leaves it as it is. */
  predicate Trimmed(s: string) {
    s != [] && !IsSpace(s[0]) && !IsSpace(s[|s| - 1])
  }

  /** Where str.strip() starts looking from i: the index of the first
      non-whitespace character at or after i, or |s| if there is none. */
  function StripStart(s: string, i: nat): (a: nat)
    requires i <= |s|
    ensures i <= a <= |s|
    ensures forall k :: i <= k < a ==> IsSpace(s[k])
    ensures a == |s| || !IsSpace(s[a])
    decreases |s| - i
  {
    if i < |s| && IsSpace(s[i]) then StripStart(s, i + 1) else i
  }

  /** Where str.strip() ends, looking back from j but not past lo: just
      after the last non-whitespace character in s[lo..j], or lo if there
      is none. */
  function StripEnd(s: string, lo: nat, j: nat): (b: nat)
    requires lo <= j <= |s|
    ensures lo <= b <= j
    ensures forall k :: b <= k < j ==> IsSpace(s[k])
    ensures b == lo || !IsSpace(s[b - 1])
    decreases j
  {
    if lo < j && IsSpace(s[j - 1]) then StripEnd(s, lo, j - 1) else j
  }

  /** str.strip() */
  function Strip(s: string): string {
    var a := StripStart(s, 0);
    s[a..StripEnd(s, a, |s|)]
  }

  lemma StripBounds(s: string)
    ensures var a := StripStart(s, 0); var b := StripEnd(s, a, |s|);
      0 <= a <= b <= |s| && Strip(s) == s[a..b]
  {
  }

  lemma StripRemovesSpace(s: string)
    ensures var a := StripStart(s, 0); var b := StripEnd(s, a, |s|);
      && (forall i :: 0 <= i < a ==> IsSpace(s[i]))
      && (forall i :: b <= i < |s| ==> IsSpace(s[i]))
  {
  }

  lemma StripLeavesTrimmed(s: string)
    ensures Strip(s) == [] || Trimmed(Strip(s))
  {
    var a := StripStart(s, 0);
    var b := StripEnd(s, a, |s|);
    if a < b {
      assert Strip(s)[0] == s[a];
      assert Strip(s)[b - a - 1] == s[b - 1];
    }
  }

  /** What str.strip() promises: it keeps a contiguous middle part of its
      argument, removes only whitespace, and leaves no whitespace at either end. */
  lemma StripSpec(s: string)
    ensures var a := StripStart(s, 0); var b := StripEnd(s, a, |s|);
      && 0 <= a <= b <= |s| && Strip(s) == s[a..b]
      && (forall i :: 0 <= i < a ==> IsSpace(s[i]))
      && (forall i :: b <= i < |s| ==> IsSpace(s[i]))
    ensures Strip(s) == [] || Trimmed(Strip(s))
  {
    StripBounds(s);
    StripRemovesSpace(s);
    StripLeavesTrimmed(s);
  }

  lemma StripTrimmed(s: string)
    requires Trimmed(s)
    ensures Strip(s) == s
  {
    assert StripStart(s, 0) == 0;
    assert StripEnd(s, 0, |s|) == |s|;
  }

  /** A single space and a clean key strip down to the key. */
  lemma StripSpaceThen(k: string)
    requires Trimmed(k)
    ensures Strip(" " + k) == k
  {
    var t := " " + k;
    assert t[1] == k[0];
    assert StripStart(t, 1) == 1;
    assert StripStart(t, 0) == 1;
    assert t[|t| - 1] == k[|k| - 1];
    assert StripEnd(t, 1, |t|) == |t|;
    assert t[1..] == k;
  }

  /** Two clean parts joined by a space are already stripped. */
  lemma StripJoined(a: string, b: string)
    requires Trimmed(a) && Trimmed(b)
    ensures Trimmed(a + " " + b) && Strip(a + " " + b) == a + " " + b
  {
    var t := a + " " + b;
    assert t[0] == a[0];
    assert t[|t| - 1] == b[|b| - 1];
    StripTrimmed(t);
  }

  // ---------------------------------------------------------------- str.split()

  /** The length of the run of non-whitespace characters that starts s. */
  function WordLength(s: string): (n: nat)
    ensures n <= |s|
    ensures forall i :: 0 <= i < n ==> !IsSpace(s[i])
    ensures n < |s| ==> IsSpace(s[n])
  {
    if s == [] || IsSpace(s[0]) then 0 else 1 + WordLength(s[1..])
  }

  /** str.split() without arguments: the maximal runs of non-whitespace, in order. */
  function Split(s: string): (r: seq<string>)
    ensures forall i :: 0 <= i < |r| ==> r[i] != [] && NoSpace(r[i])
    decreases |s|
  {
    if s == [] then []
    else if IsSpace(s[0]) then Split(s[1..])
    else
      var n := WordLength(s);
      [s[..n]] + Split(s[n..])
  }

  lemma {:induction false} WordLengthOfWord(t: string, u: string)
    requires NoSpace(t)
    requires u == [] || IsSpace(u[0])
    ensures WordLength(t + u) == |t|
    decreases |t|
  {
    if t == [] {
      assert t + u == u;
    } else {
      var s := t + u;
      assert s[0] == t[0] && !IsSpace(t[0]);
      assert s[1..] == t[1..] + u;
      WordLengthOfWord(t[1..], u);
    }
  }

  /** A word followed by whitespace or nothing splits off as the first token. */
  lemma SplitWordThen(t: string, u: string)
    requires t != [] && NoSpace(t)
    requires u == [] || IsSpace(u[0])
    ensures Split(t + u) == [t] + Split(u)
  {
    WordLengthOfWord(t, u);
    var s := t + u;
    assert s[..|t|] == t;
    assert s[|t|..] == u;
  }

  /** A leading space is skipped. */
  lemma SplitSpaceThen(u: string)
    ensures Split(" " + u) == Split(u)
  {
    assert (" " + u)[1..] == u;
  }

  /** Splitting a space-joined list of words gives the words back. */
  lemma {:induction false} SplitJoin(ts: seq<string>)
    requires forall i :: 0 <= i < |ts| ==> ts[i] != [] && NoSpace(ts[i])
    ensures Split(Join(" ", ts)) == ts
  {
    if |ts| == 1 {
      var t := ts[0];
      SplitWordThen(t, "");
      assert t + "" == t;
    } else if |ts| > 1 {
      var t, rest := ts[0], Join(" ", ts[1..]);
      assert Join(" ", ts) == t + (" " + rest);
      SplitWordThen(t, " " + rest);
      SplitSpaceThen(rest);
      SplitJoin(ts[1..]);
      assert ts == [t] + ts[1..];
    }
  }

  /** Whitespace alone has no tokens. */
  lemma {:induction false} SplitAllSpaces(t: string)
    requires forall i :: 0 <= i < |t| ==> IsSpace(t[i])
    ensures Split(t) == []
  {
    if t != [] {
      SplitAllSpaces(t[1..]);
    }
  }

  /** Trailing whitespace adds no token. */
  lemma {:induction false} SplitAppendSpaces(s: string, t: string)
    requires forall i :: 0 <= i < |t| ==> IsSpace(t[i])
    ensures Split(s + t) == Split(s)
    decreases |s| + |t|
  {
    if s == [] {
      assert s + t == t;
      SplitAllSpaces(t);
    } else if IsSpace(s[0]) {
      assert (s + t)[1..] == s[1..] + t;
      SplitAppendSpaces(s[1..], t);
    } else {
      var n := WordLength(s);
      var w, rest := s[..n], s[n..];
      assert NoSpace(w);
      assert s == w + rest;
      SplitWordThen(w, rest);
      assert s + t == w + (rest + t);
      SplitWordThen(w, rest + t);
      SplitAppendSpaces(rest, t);
    }
  }


  /** Leading whitespace adds no token. */
  lemma {:induction false} SplitSpacesThen(t: string, u: string)
    requires forall i :: 0 <= i < |t| ==> IsSpace(t[i])
    ensures Split(t + u) == Split(u)
    decreases |t|
  {
    if t == [] {
      assert t + u == u;
    } else {
      assert (t + u)[0] == t[0];
      assert (t + u)[1..] == t[1..] + u;
      SplitSpacesThen(t[1..], u);
    }
  }

  /** gaps[0] + words[0] + gaps[1] + ... + words[n-1] + gaps[n]: words set
      apart by whitespace gaps, of which the inner ones are non-empty. */
  function Interleave(gaps: seq<string>, words: seq<string>): string
    requires |gaps| == |words| + 1
    decreases |words|
  {
    if words == [] then gaps[0] else gaps[0] + words[0] + Interleave(gaps[1..], words[1..])
  }

  /** An interleaving that starts with a non-empty gap starts with whitespace. */
  lemma InterleaveStartsWithSpace(gaps: seq<string>, words: seq<string>)
    requires |gaps| == |words| + 1 && gaps[0] != [] && IsSpace(gaps[0][0])
    ensures Interleave(gaps, words)[0] == gaps[0][0]
  {
    if words != [] {
      assert Interleave(gaps, words) == gaps[0] + (words[0] + Interleave(gaps[1..], words[1..]));
    }
  }

  /** Whatever whitespace sets the words apart, at either end or between
      them, str.split() gives back exactly the words, in order. */
  lemma {:induction false} SplitInterleaved(gaps: seq<string>, words: seq<string>)
    requires |gaps| == |words| + 1
    requires forall g :: 0 <= g < |gaps| ==> forall i :: 0 <= i < |gaps[g]| ==> IsSpace(gaps[g][i])
    requires forall g :: 0 < g < |words| ==> gaps[g] != []
    requires forall w :: 0 <= w < |words| ==> words[w] != [] && NoSpace(words[w])
    ensures Split(Interleave(gaps, words)) == words
    decreases |words|
  {
    if words == [] {
      SplitAllSpaces(gaps[0]);
    } else {
      var rest := Interleave(gaps[1..], words[1..]);
      assert gaps[0] + words[0] + rest == gaps[0] + (words[0] + rest);
      SplitSpacesThen(gaps[0], words[0] + rest);
      if words[1..] == [] {
        assert rest == gaps[1];
      } else {
        assert gaps[1..][0] == gaps[1] && gaps[1] != [];
        InterleaveStartsWithSpace(gaps[1..], words[1..]);
      }
      assert rest == [] || IsSpace(rest[0]);
      SplitWordThen(words[0], rest);
      SplitInterleaved(gaps[1..], words[1..]);
      assert words == [words[0]] + words[1..];
    }
  }

  /** The non-whitespace characters of s, in order. */
  function NonSpace(s: string): string {
    if s == [] then "" else (if IsSpace(s[0]) then "" else [s[0]]) + NonSpace(s[1..])
  }

  lemma {:induction false} NonSpaceAppend(a: string, b: string)
    ensures NonSpace(a + b) == NonSpace(a) + NonSpace(b)
  {
    if a == [] {
      assert a + b == b;
    } else {
      assert (a + b)[0] == a[0];
      assert (a + b)[1..] == a[1..] + b;
      NonSpaceAppend(a[1..], b);
    }
  }

  lemma {:induction false} NonSpaceWord(w: string)
    requires NoSpace(w)
    ensures NonSpace(w) == w
  {
    if w != [] {
      NonSpaceWord(w[1..]);
      assert w == [w[0]] + w[1..];
    }
  }

  /** str.split() loses only whitespace: its tokens run together are the
      non-whitespace characters of the input, in order. */
  lemma {:induction false} SplitKeepsNonSpace(s: string)
    ensures Concat(Split(s)) == NonSpace(s)
    decreases |s|
  {
    if s == [] {
    } else if IsSpace(s[0]) {
      SplitKeepsNonSpace(s[1..]);
    } else {
      var n := WordLength(s);
      var w, rest := s[..n], s[n..];
      assert s == w + rest;
      NonSpaceAppend(w, rest);
      NonSpaceWord(w);
      SplitKeepsNonSpace(rest);
      assert Split(s) == [w] + Split(rest);
      assert ([w] + Split(rest))[1..] == Split(rest);
    }
  }

  // ---------------------------------------------------------------- str.join()

  /** sep.join(xs) */
  function Join(sep: string, xs: seq<string>): string {
    if |xs| == 0 then "" else if |xs| == 1 then xs[0] else xs[0] + sep + Join(sep, xs[1..])
  }

  /** "".join(xs), also what repeated `+=` onto "" builds. */
  function Concat(xs: seq<string>): string {
    if xs == [] then "" else xs[0] + Concat(xs[1..])
  }

  function TotalLength(xs: seq<string>): nat {
    if xs == [] then 0 else |xs[0]| + TotalLength(xs[1..])
  }

  lemma {:induction false} ConcatAppend(xs: seq<string>, ys: seq<string>)
    ensures Concat(xs + ys) == Concat(xs) + Concat(ys)
  {
    if xs == [] {
      assert xs + ys == ys;
    } else {
      assert (xs + ys)[1..] == xs[1..] + ys;
      ConcatAppend(xs[1..], ys);
    }
  }

  /** The joined string is as long as its parts plus one separator between
      each neighbouring pair. */
  lemma {:induction false} JoinLength(sep: string, xs: seq<string>)
    requires |xs| >= 1
    ensures |Join(sep, xs)| == TotalLength(xs) + (|xs| - 1) * |sep|
  {
    if |xs| > 1 {
      JoinLength(sep, xs[1..]);
      assert (|xs| - 1) * |sep| == (|xs| - 2) * |sep| + |sep|;
    }
  }

  /** Words separated by exactly one plain space each, with no whitespace at
      either end and none anywhere else. */
  predicate SingleSpaced(s: string) {
    forall i :: 0 <= i < |s| && IsSpace(s[i]) ==>
      s[i] == ' ' && 0 < i < |s| - 1 && !IsSpace(s[i - 1]) && !IsSpace(s[i + 1])
  }

  /** " ".join of non-empty whitespace-free words is single-spaced, and it is
      empty exactly when there are no words. */
  lemma {:induction false} JoinSingleSpaced(ts: seq<string>)
    requires forall i :: 0 <= i < |ts| ==> ts[i] != [] && NoSpace(ts[i])
    ensures SingleSpaced(Join(" ", ts))
    ensures |ts| > 0 ==> Join(" ", ts) != [] && !IsSpace(Join(" ", ts)[0])
  {
    if |ts| > 1 {
      var t, rest := ts[0], Join(" ", ts[1..]);
      JoinSingleSpaced(ts[1..]);
      var r := t + " " + rest;
      assert r == Join(" ", ts);
      forall i | 0 <= i < |r| && IsSpace(r[i])
        ensures r[i] == ' ' && 0 < i < |r| - 1 && !IsSpace(r[i - 1]) && !IsSpace(r[i + 1])
      {
        if i < |t| {
          assert false;
        } else if i > |t| {
          assert r[i] == rest[i - |t| - 1];
          if i - 1 > |t| {
            assert r[i - 1] == rest[i - |t| - 2];
          }
          assert r[i + 1] == rest[i - |t|];
        } else {
          assert r[i - 1] == t[|t| - 1];
          assert r[i + 1] == rest[0];
        }
      }
    }
  }

  // ---------------------------------------------------------------- str.lower()

  /** str.lower() on one character, for the ASCII letters. */
  function LowerChar(c: char): char {
    if 'A' <= c <= 'Z' then (c as int + 32) as char else c
  }

  predicate IsUpper(c: char) {
    'A' <= c <= 'Z'
  }

  function Lower(s: string): (r: string)
    ensures |r| == |s|
    ensures forall i :: 0 <= i < |s| ==> !IsUpper(r[i])
    ensures forall i :: 0 <= i < |s| ==> (r[i] == s[i] || (IsUpper(s[i]) && r[i] as int == s[i] as int + 32))
  {
    seq(|s|, i requires 0 <= i < |s| => LowerChar(s[i]))
  }

  lemma LowerAppend(a: string, b: string)
    ensures Lower(a + b) == Lower(a) + Lower(b)
  {
  }

  // ---------------------------------------------------------------- slicing and indexing

  /** s[:n] for any int n: a non-negative bound is clamped to the length, a
      negative one counts from the end. */
  function PrefixSlice<T>(s: seq<T>, n: int): (r: seq<T>)
    ensures r <= s
    ensures n >= 0 ==> |r| == if n <= |s| then n else |s|
    ensures n < 0 ==> |r| == if -n <= |s| then |s| + n else 0
  {
    if n >= 0 then (if n <= |s| then s[..n] else s)
    else (if -n <= |s| then s[..|s| + n] else [])
  }

  /** s[i:j] for non-negative i and j: both clamped to the length, and empty when j <= i. */
  function Slice<T>(s: seq<T>, i: nat, j: nat): (r: seq<T>)
    ensures i <= j <= |s| ==> r == s[i..j]
    ensures j <= i ==> r == []
    ensures i <= |s| <= j ==> r == s[i..]
  {
    var lo := if i <= |s| then i else |s|;
    var hi := if j <= |s| then j else |s|;
    if lo <= hi then s[lo..hi] else []
  }

  /** xs[i] for any int i: a negative index counts from the end, anything
      outside -len(xs) .. len(xs)-1 raises IndexError. */
  function PyIndex<T>(xs: seq<T>, i: int): (r: Result<T>)
    ensures r.Ok? <==> -|xs| <= i < |xs|
    ensures 0 <= i < |xs| ==> r == Ok(xs[i])
    ensures -|xs| <= i < 0 ==> r == Ok(xs[|xs| + i])
  {
    if 0 <= i < |xs| then Ok(xs[i])
    else if -|xs| <= i < 0 then Ok(xs[|xs| + i])
    else Err(IndexError)
  }

  // ---------------------------------------------------------------- subsequences

  /** a can be obtained from b by deleting elements, keeping the order. */
  predicate IsSubsequence<T(==)>(a: seq<T>, b: seq<T>)
    decreases |b|
  {
    if a == [] then true
    else if b == [] then false
    else if a[0] == b[0] then IsSubsequence(a[1..], b[1..])
    else IsSubsequence(a, b[1..])
  }

  /** An element in front of b can be skipped. */
  lemma {:induction false} SubsequenceSkip<T>(a: seq<T>, b: seq<T>)
    requires b != [] && IsSubsequence(a, b[1..])
    ensures IsSubsequence(a, b)
    decreases |b|, 0
  {
    if a != [] && a[0] == b[0] {
      SubsequenceTail(a, b[1..]);
    }
  }

  /** Dropping the first element of a subsequence keeps it a subsequence. */
  lemma {:induction false} SubsequenceTail<T>(a: seq<T>, c: seq<T>)
    requires a != [] && IsSubsequence(a, c)
    ensures IsSubsequence(a[1..], c)
    decreases |c|, 1
  {
    if a[0] == c[0] {
      SubsequenceSkip(a[1..], c);
    } else {
      SubsequenceTail(a, c[1..]);
      SubsequenceSkip(a[1..], c);
    }
  }
}
