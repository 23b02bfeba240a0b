/** Python's built-in string operations used by bot.py, on Dafny strings
    (sequences of Unicode scalar values, as Python's str is a sequence of
    code points). */
module Text {

  /** Python's str.isspace(): the characters str.strip() removes. */
  predicate IsSpace(c: char) {
    || c == ' '
    || ('\t' <= c <= '\r')              // \t \n \v \f \r
    || ('\U{1C}' <= c <= '\U{1F}')      // file, group, record and unit separators
    || c == '\U{85}' || c == '\U{A0}' || c == '\U{1680}'
    || ('\U{2000}' <= c <= '\U{200A}')
    || c == '\U{2028}' || c == '\U{2029}' || c == '\U{202F}' || c == '\U{205F}'
    || c == '\U{3000}'
  }

  /** Number of occurrences of c in s. */
  function Count(s: string, c: char): (n: nat)
    ensures n <= |s|
  {
    if s == [] then 0 else (if s[0] == c then 1 else 0) + Count(s[1..], c)
  }

  /** Number of characters of s that belong to the set cs. */
  function CountIn(s: string, cs: set<char>): (n: nat)
    ensures n <= |s|
  {
    if s == [] then 0 else (if s[0] in cs then 1 else 0) + CountIn(s[1..], cs)
  }

  // ---------------------------------------------------------------------------
  // str.strip()

  /** Length of the run of whitespace at the start of s. */
  function LeadingSpace(s: string): (n: nat)
    ensures n <= |s|
    ensures forall i :: 0 <= i < n ==> IsSpace(s[i])
    ensures n == |s| || !IsSpace(s[n])
  {
    if s == [] || !IsSpace(s[0]) then 0 else 1 + LeadingSpace(s[1..])
  }

  /** Length of the run of whitespace at the end of s. */
  function TrailingSpace(s: string): (n: nat)
    ensures n <= |s|
    ensures forall i :: |s| - n <= i < |s| ==> IsSpace(s[i])
    ensures n == |s| || !IsSpace(s[|s| - 1 - n])
  {
    if s == [] || !IsSpace(s[|s| - 1]) then 0 else 1 + TrailingSpace(s[..|s| - 1])
  }

  /** Python's str.strip() with no argument: s without its leading and
      trailing whitespace. The result is the slice of s that starts at
      LeadingSpace(s); everything cut off on either side is whitespace. */
  function Strip(s: string): (r: string)
    ensures |r| <= |s| - LeadingSpace(s)
    ensures r == s[LeadingSpace(s)..LeadingSpace(s) + |r|]
    ensures forall i :: LeadingSpace(s) + |r| <= i < |s| ==> IsSpace(s[i])
    ensures r != [] ==> !IsSpace(r[0]) && !IsSpace(r[|r| - 1])
    ensures r == [] <==> forall i :: 0 <= i < |s| ==> IsSpace(s[i])
  {
    var t := s[LeadingSpace(s)..];
    t[..|t| - TrailingSpace(t)]
  }

  /** Stripping twice is the same as stripping once. */
  lemma StripIdempotent(s: string)
    ensures Strip(Strip(s)) == Strip(s)
  {
    var r := Strip(s);
    if r != [] {
      assert LeadingSpace(r) == 0;
      assert TrailingSpace(r) == 0;
    }
  }

  /** s is the whitespace strip() removes at the front, then Strip(s), then
      the whitespace it removes at the back. */
  lemma StripParts(s: string) returns (a: string, b: string)
    ensures s == a + Strip(s) + b
    ensures forall i :: 0 <= i < |a| ==> IsSpace(a[i])
    ensures forall i :: 0 <= i < |b| ==> IsSpace(b[i])
  {
    var n := LeadingSpace(s);
    var m := Strip(s);
    a, b := s[..n], s[n + |m|..];
    assert forall i :: 0 <= i < |b| ==> b[i] == s[n + |m| + i];
    assert s == a + m + b;
  }

  /** Whitespace around a part that neither starts nor ends with whitespace
      is exactly what strip() removes. */
  lemma StripFrame(a: string, m: string, b: string)
    requires forall i :: 0 <= i < |a| ==> IsSpace(a[i])
    requires forall i :: 0 <= i < |b| ==> IsSpace(b[i])
    requires m != [] ==> !IsSpace(m[0]) && !IsSpace(m[|m| - 1])
    ensures Strip(a + m + b) == m
  {
    var s := a + m + b;
    var r := Strip(s);
    if m == [] {
      assert forall i :: 0 <= i < |s| ==> IsSpace(s[i]) by {
        assert s == a + b;
      }
    } else {
      var n := LeadingSpace(s);
      assert s[|a|] == m[0];
      assert forall i :: 0 <= i < |a| ==> s[i] == a[i];
      assert n == |a|;
      assert s[|a| + |m| - 1] == m[|m| - 1];
      assert forall i :: |a| + |m| <= i < |s| ==> s[i] == b[i - |a| - |m|];
      assert |r| == |m|;
      assert r == s[|a|..|a| + |m|];
    }
  }

  // ---------------------------------------------------------------------------
  // str.split(sep) and sep.join(parts)

  /** Index of the first occurrence of sep in s, or |s| when there is none. */
  function IndexOf(s: string, sep: char): (i: nat)
    ensures i <= |s|
    ensures i < |s| ==> s[i] == sep
    ensures forall j :: 0 <= j < i ==> s[j] != sep
  {
    if s == [] then 0 else if s[0] == sep then 0 else 1 + IndexOf(s[1..], sep)
  }

  /** Python's sep.join(parts). */
  function JoinWith(parts: seq<string>, sep: string): string
  {
    if parts == [] then []
    else if |parts| == 1 then parts[0]
    else parts[0] + sep + JoinWith(parts[1..], sep)
  }

  /** Python's s.split(sep) for a one-character separator: the pieces
      between separators, in order; there is always one more piece than
      there are separators (SplitLength). */
  function Split(s: string, sep: char): (parts: seq<string>)
    ensures parts != []
    decreases |s|
  {
    var i := IndexOf(s, sep);
    if i == |s| then [s] else [s[..i]] + Split(s[i + 1..], sep)
  }

  /** A split has one more piece than there are separators. */
  lemma {:induction false} SplitLength(s: string, sep: char)
    ensures |Split(s, sep)| == Count(s, sep) + 1
    decreases |s|
  {
    var i := IndexOf(s, sep);
    if i == |s| {
      CountAbsent(s, sep);
    } else {
      SplitCount(s, sep, i);
      SplitLength(s[i + 1..], sep);
    }
  }

  lemma {:induction false} CountAbsent(s: string, c: char)
    requires forall j :: 0 <= j < |s| ==> s[j] != c
    ensures Count(s, c) == 0
  {
    if s != [] {
      CountAbsent(s[1..], c);
    }
  }

  /** No piece of a split contains the separator. */
  lemma {:induction false} SplitPieceFree(s: string, sep: char, k: nat)
    requires k < |Split(s, sep)|
    ensures sep !in Split(s, sep)[k]
    decreases |s|
  {
    var i := IndexOf(s, sep);
    if i == |s| {
      assert Split(s, sep) == [s];
    } else {
      var rest := Split(s[i + 1..], sep);
      assert Split(s, sep) == [s[..i]] + rest;
      if k == 0 {
        assert Split(s, sep)[0] == s[..i];
        assert forall j :: 0 <= j < i ==> s[..i][j] != sep;
      } else {
        assert Split(s, sep)[k] == rest[k - 1];
        SplitPieceFree(s[i + 1..], sep, k - 1);
      }
    }
  }

  /** Counting a separator that sits at index i, the first one. */
  lemma SplitCount(s: string, sep: char, i: nat)
    requires i < |s| && s[i] == sep
    requires forall j :: 0 <= j < i ==> s[j] != sep
    ensures Count(s, sep) == 1 + Count(s[i + 1..], sep)
  {
    if i > 0 {
      assert s[1..][i - 1..] == s[i..];
      SplitCount(s[1..], sep, i - 1);
      assert s[1..][i..] == s[i + 1..];
    }
  }

  /** Joining the pieces of a split with the separator gives back the
      original string. */
  lemma {:induction false} JoinSplit(s: string, sep: char)
    ensures JoinWith(Split(s, sep), [sep]) == s
    decreases |s|
  {
    var i := IndexOf(s, sep);
    if i == |s| {
      assert Split(s, sep) == [s];
    } else {
      var rest := Split(s[i + 1..], sep);
      assert Split(s, sep) == [s[..i]] + rest;
      JoinSplit(s[i + 1..], sep);
      JoinCons(s[..i], rest, [sep]);
      assert JoinWith(Split(s, sep), [sep]) == s[..i] + [sep] + s[i + 1..];
      assert s == s[..i] + [sep] + s[i + 1..];
    }
  }

  /** Joining a non-empty tail after a first part. */
  lemma JoinCons(x: string, rest: seq<string>, sep: string)
    requires rest != []
    ensures JoinWith([x] + rest, sep) == x + sep + JoinWith(rest, sep)
  {
    assert ([x] + rest)[1..] == rest;
  }

  /** Splitting a string that starts with a separator-free piece followed by
      the separator yields that piece first. */
  lemma SplitAfter(a: string, sep: char, b: string)
    requires sep !in a
    ensures Split(a + [sep] + b, sep) == [a] + Split(b, sep)
  {
    var s := a + [sep] + b;
    assert forall j :: 0 <= j < |a| ==> s[j] == a[j];
    IndexOfFirst(s, sep, |a|);
    assert s[..|a|] == a;
    assert s[|a| + 1..] == b;
  }

  /** IndexOf finds a separator at index i when none occurs before it. */
  lemma IndexOfFirst(s: string, sep: char, i: nat)
    requires i < |s| && s[i] == sep
    requires forall j :: 0 <= j < i ==> s[j] != sep
    ensures IndexOf(s, sep) == i
  {
    if i > 0 {
      IndexOfFirst(s[1..], sep, i - 1);
    }
  }

  // ---------------------------------------------------------------------------
  // str.replace(old, new)

  /** Python's s.replace(pat, rep): scan from the left, replace each
      occurrence of pat by rep and continue after it, so occurrences never
      overlap. */
  function Replace(s: string, pat: string, rep: string): string
    requires pat != []
    decreases |s|
  {
    if |s| < |pat| then s
    else if s[..|pat|] == pat then rep + Replace(s[|pat|..], pat, rep)
    else [s[0]] + Replace(s[1..], pat, rep)
  }

  /** A text that starts with the pattern has it replaced there. */
  lemma ReplaceMatch(pat: string, t: string, rep: string)
    requires pat != []
    ensures Replace(pat + t, pat, rep) == rep + Replace(t, pat, rep)
  {
    assert (pat + t)[..|pat|] == pat && (pat + t)[|pat|..] == t;
  }

  /** A character that cannot begin a match of a two-character pattern is
      copied. */
  lemma ReplacePass(x: char, t: string, pat: string, rep: string)
    requires |pat| == 2 && (x != pat[0] || t == [] || t[0] != pat[1])
    ensures Replace([x] + t, pat, rep) == [x] + Replace(t, pat, rep)
  {
    var s := [x] + t;
    if |s| >= 2 {
      assert s[..2][0] == x && s[..2][1] == t[0];
    }
    assert s[1..] == t;
  }

  // ---------------------------------------------------------------------------
  // [line.strip() for line in lines if line.strip()]

  /** The stripped lines of ls that are not blank, in order. */
  function NonBlankStripped(ls: seq<string>): (r: seq<string>)
    ensures |r| <= |ls|
    ensures forall k :: 0 <= k < |r| ==> r[k] != []
  {
    if ls == [] then [] else Kept(ls[0]) + NonBlankStripped(ls[1..])
  }

  /** The kept lines are already stripped. */
  lemma NonBlankStrippedStripped(ls: seq<string>, k: nat)
    requires k < |NonBlankStripped(ls)|
    ensures Strip(NonBlankStripped(ls)[k]) == NonBlankStripped(ls)[k]
  {
    NonBlankStrippedFrom(ls, k);
    var i :| 0 <= i < |ls| && Strip(ls[i]) == NonBlankStripped(ls)[k];
    StripIdempotent(ls[i]);
  }

  /** The filter works line by line: it distributes over concatenation. */
  lemma {:induction false} NonBlankStrippedAppend(a: seq<string>, b: seq<string>)
    ensures NonBlankStripped(a + b) == NonBlankStripped(a) + NonBlankStripped(b)
  {
    if a == [] {
      assert a + b == b;
    } else {
      assert (a + b)[1..] == a[1..] + b;
      NonBlankStrippedAppend(a[1..], b);
      var k, na, nb := Kept(a[0]), NonBlankStripped(a[1..]), NonBlankStripped(b);
      assert k + (na + nb) == (k + na) + nb;
    }
  }

  /** What the filter keeps of one line. */
  function Kept(x: string): seq<string>
  {
    if Strip(x) == [] then [] else [Strip(x)]
  }

  /** The filter starts with what it keeps of the first line. */
  lemma NonBlankStrippedCons(x: string, ls: seq<string>)
    ensures NonBlankStripped([x] + ls) == Kept(x) + NonBlankStripped(ls)
  {
    assert ([x] + ls)[1..] == ls;
  }

  /** Lines that are non-blank and already stripped all pass the filter
      unchanged; in particular the filter is idempotent. */
  lemma {:induction false} NonBlankStrippedFixed(ls: seq<string>)
    requires forall i :: 0 <= i < |ls| ==> ls[i] != [] && Strip(ls[i]) == ls[i]
    ensures NonBlankStripped(ls) == ls
  {
    if ls != [] {
      NonBlankStrippedFixed(ls[1..]);
      assert Kept(ls[0]) == [ls[0]];
      assert ls == [ls[0]] + ls[1..];
    }
  }

  /** One more line adds its strip when that is not empty. */
  lemma NonBlankStrippedSnoc(ls: seq<string>, x: string)
    ensures NonBlankStripped(ls + [x]) == NonBlankStripped(ls) + Kept(x)
  {
    NonBlankStrippedAppend(ls, [x]);
    assert NonBlankStripped([x]) == Kept(x) + NonBlankStripped([]);
  }

  /** Every non-blank line of ls is kept, stripped. */
  lemma {:induction false} NonBlankStrippedKeeps(ls: seq<string>, i: nat)
    requires i < |ls| && Strip(ls[i]) != []
    ensures Strip(ls[i]) in NonBlankStripped(ls)
    decreases |ls|
  {
    if i > 0 {
      assert ls[1..][i - 1] == ls[i];
      NonBlankStrippedKeeps(ls[1..], i - 1);
    }
  }

  /** Nothing else is kept: every element is the strip of some line. */
  lemma {:induction false} NonBlankStrippedFrom(ls: seq<string>, k: nat)
    requires k < |NonBlankStripped(ls)|
    ensures exists i :: 0 <= i < |ls| && Strip(ls[i]) == NonBlankStripped(ls)[k]
    decreases |ls|
  {
    var kept, rest := Kept(ls[0]), NonBlankStripped(ls[1..]);
    var r := NonBlankStripped(ls);
    assert r == kept + rest;
    if k < |kept| {
      assert Strip(ls[0]) == r[k];
    } else {
      assert r[k] == rest[k - |kept|];
      NonBlankStrippedFrom(ls[1..], k - |kept|);
      var i :| 0 <= i < |ls[1..]| && Strip(ls[1..][i]) == rest[k - |kept|];
      assert ls[i + 1] == ls[1..][i];
    }
  }
}
