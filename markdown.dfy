/** escape_markdown and format_for_telegram of bot.py: turning an answer into
    Telegram MarkdownV2 text. */
module Markdown {
  import opened Text

  /** The characters MarkdownV2 reserves, as listed in the Telegram Bot API
      ("Formatting options", MarkdownV2 style). The backslash is not among
      them. */
  const Reserved: set<char> :=
    {'_', '*', '[', ']', '(', ')', '~', '`', '>', '#', '+', '-', '=', '|', '{', '}', '.', '!'}

  /** The reserved characters other than `*` and `_`: those that stay
      escaped once `*` and `_` have been given back. */
  const StillEscaped: set<char> :=
    {'[', ']', '(', ')', '~', '`', '>', '#', '+', '-', '=', '|', '{', '}', '.', '!'}

  const BulletGlyph: char := '\U{2022}'      // •
  const ArrowGlyph: char := '\U{2192}'       // →
  /** "▪️ ": black small square, emoji variation selector, space. */
  const NumberedMark: string := "\U{25AA}\U{FE0F} "

  // ---------------------------------------------------------------------------
  // Escaping

  /** Puts a backslash in front of every character of s that is in cs. */
  function EscapeWith(s: string, cs: set<char>): string
  {
    if s == [] then []
    else (if s[0] in cs then ['\\', s[0]] else [s[0]]) + EscapeWith(s[1..], cs)
  }

  /** escape_markdown: every MarkdownV2 reserved character gets a backslash. */
  function EscapeMarkdown(s: string): string
  {
    EscapeWith(s, Reserved)
  }

  /** Removes the backslash in front of each character of cs; the inverse of
      EscapeWith. */
  function Unescape(t: string, cs: set<char>): string
  {
    if |t| >= 2 && t[0] == '\\' && t[1] in cs then [t[1]] + Unescape(t[2..], cs)
    else if t == [] then []
    else [t[0]] + Unescape(t[1..], cs)
  }

  /** Escaping adds exactly one character per escaped character. */
  lemma {:induction false} EscapeLength(s: string, cs: set<char>)
    ensures |EscapeWith(s, cs)| == |s| + CountIn(s, cs)
  {
    if s != [] {
      EscapeLength(s[1..], cs);
    }
  }

  /** An escaped text never begins with a character of cs. */
  lemma EscapeHead(s: string, cs: set<char>)
    requires '\\' !in cs
    ensures EscapeWith(s, cs) != [] ==> EscapeWith(s, cs)[0] !in cs
  {
  }

  /** Removing the inserted backslashes gives back the input. */
  lemma {:induction false} UnescapeEscape(s: string, cs: set<char>)
    requires '\\' !in cs
    ensures Unescape(EscapeWith(s, cs), cs) == s
  {
    if s != [] {
      var rest := EscapeWith(s[1..], cs);
      UnescapeEscape(s[1..], cs);
      EscapeHead(s[1..], cs);
      if s[0] in cs {
        assert EscapeWith(s, cs) == ['\\', s[0]] + rest;
        assert (['\\', s[0]] + rest)[2..] == rest;
      } else {
        assert EscapeWith(s, cs) == [s[0]] + rest;
        assert ([s[0]] + rest)[1..] == rest;
      }
    }
  }

  /** Escaping only adds backslashes: every other character occurs in the
      output exactly as often as in the input. */
  lemma {:induction false} EscapeCount(s: string, cs: set<char>, c: char)
    requires c != '\\'
    ensures Count(EscapeWith(s, cs), c) == Count(s, c)
  {
    if s != [] {
      var head := if s[0] in cs then ['\\', s[0]] else [s[0]];
      EscapeCount(s[1..], cs, c);
      CountAppend(head, EscapeWith(s[1..], cs), c);
    }
  }

  lemma {:induction false} CountAppend(a: string, b: string, c: char)
    ensures Count(a + b, c) == Count(a, c) + Count(b, c)
  {
    if a == [] {
      assert a + b == b;
    } else {
      assert (a + b)[1..] == a[1..] + b;
      CountAppend(a[1..], b, c);
    }
  }

  // ---------------------------------------------------------------------------
  // Giving back `*` and `_` (the two str.replace calls)

  /** Escape, then turn `\*` back into `*` and `\_` back into `_`. */
  function Prepare(text: string): string
  {
    Replace(Replace(EscapeMarkdown(text), "\\*", "*"), "\\_", "_")
  }

  /** Undoing the escape of one character c with a left-to-right,
      non-overlapping replacement is the same as never escaping c: the
      replacement cannot match across a backslash that came from the input. */
  lemma {:induction false} ReplaceUnescapes(s: string, cs: set<char>, c: char)
    requires '\\' !in cs && c in cs
    ensures Replace(EscapeWith(s, cs), ['\\', c], [c]) == EscapeWith(s, cs - {c})
  {
    if s != [] {
      var pat := ['\\', c];
      var rest := EscapeWith(s[1..], cs);
      var head := if s[0] in cs - {c} then ['\\', s[0]] else [s[0]];
      assert Replace(EscapeWith(s, cs), pat, [c]) == head + Replace(rest, pat, [c]) by {
        if s[0] == c {
          assert EscapeWith(s, cs) == pat + rest;
          ReplaceMatch(pat, rest, [c]);
        } else if s[0] in cs {
          assert EscapeWith(s, cs) == ['\\'] + ([s[0]] + rest);
          ReplacePass('\\', [s[0]] + rest, pat, [c]);
          ReplacePass(s[0], rest, pat, [c]);
        } else {
          EscapeHead(s[1..], cs);
          assert EscapeWith(s, cs) == [s[0]] + rest;
          ReplacePass(s[0], rest, pat, [c]);
        }
      }
      ReplaceUnescapes(s[1..], cs, c);
    }
  }

  /** Lines 32-33 of bot.py together escape every reserved character
      except `*` and `_`. */
  lemma PrepareEscapesRest(text: string)
    ensures Prepare(text) == EscapeWith(text, StillEscaped)
  {
    ReplaceUnescapes(text, Reserved, '*');
    ReplaceUnescapes(text, Reserved - {'*'}, '_');
    assert Reserved - {'*'} - {'_'} == StillEscaped;
  }

  /** The prepared text holds as many `*` and as many `_` as the input, and
      removing its backslashes in front of the still-escaped characters
      gives the input back. */
  lemma PrepareKeepsText(text: string)
    ensures Count(Prepare(text), '*') == Count(text, '*')
    ensures Count(Prepare(text), '_') == Count(text, '_')
    ensures Unescape(Prepare(text), StillEscaped) == text
  {
    PrepareEscapesRest(text);
    EscapeCount(text, StillEscaped, '*');
    EscapeCount(text, StillEscaped, '_');
    UnescapeEscape(text, StillEscaped);
  }

  // ---------------------------------------------------------------------------
  // Escaped characters: every occurrence right after a backslash

  /** Every occurrence of c in t comes right after a backslash. */
  predicate Guarded(t: string, c: char)
  {
    forall i :: 0 <= i < |t| && t[i] == c ==> 0 < i && t[i - 1] == '\\'
  }

  /** Escaping with cs guards every character of cs. */
  lemma {:induction false} EscapeGuards(s: string, cs: set<char>, c: char)
    requires '\\' !in cs && c in cs
    ensures Guarded(EscapeWith(s, cs), c)
  {
    if s != [] {
      EscapeGuards(s[1..], cs, c);
      var head := if s[0] in cs then ['\\', s[0]] else [s[0]];
      GuardedAppend(head, EscapeWith(s[1..], cs), c);
    }
  }

  lemma GuardedAppend(a: string, b: string, c: char)
    requires Guarded(a, c) && Guarded(b, c)
    ensures Guarded(a + b, c)
  {
    forall i | 0 <= i < |a + b| && (a + b)[i] == c
      ensures 0 < i && (a + b)[i - 1] == '\\'
    {
      if i >= |a| {
        assert b[i - |a|] == c;
      }
    }
  }

  /** A slice keeps the guard unless it starts right after a backslash. */
  lemma GuardedSlice(t: string, c: char, a: nat, b: nat)
    requires Guarded(t, c) && a <= b <= |t|
    requires a == 0 || t[a - 1] != '\\'
    ensures Guarded(t[a..b], c)
  {
    forall i | 0 <= i < b - a && t[a..b][i] == c
      ensures 0 < i && t[a..b][i - 1] == '\\'
    {
      assert t[a + i] == c;
    }
  }

  lemma {:induction false} SplitGuarded(t: string, c: char, sep: char, k: nat)
    requires Guarded(t, c) && sep != '\\'
    requires k < |Split(t, sep)|
    ensures Guarded(Split(t, sep)[k], c)
    decreases |t|
  {
    var i := IndexOf(t, sep);
    if i == |t| {
      assert Split(t, sep) == [t];
    } else {
      var rest := Split(t[i + 1..], sep);
      assert Split(t, sep) == [t[..i]] + rest;
      if k == 0 {
        assert Split(t, sep)[0] == t[..i];
        GuardedSlice(t, c, 0, i);
      } else {
        assert Split(t, sep)[k] == rest[k - 1];
        GuardedSlice(t, c, i + 1, |t|);
        SplitGuarded(t[i + 1..], c, sep, k - 1);
      }
    }
  }

  lemma StripGuarded(t: string, c: char)
    requires Guarded(t, c)
    ensures Guarded(Strip(t), c)
  {
    var a := LeadingSpace(t);
    GuardedSlice(t, c, a, a + |Strip(t)|);
  }

  // ---------------------------------------------------------------------------
  // The line rule

  predicate IsDigit(c: char) { '0' <= c <= '9' }

  /** Length of the run of digits at the start of l. */
  function LeadingDigits(l: string): (n: nat)
    ensures n <= |l|
    ensures forall i :: 0 <= i < n ==> IsDigit(l[i])
    ensures n == |l| || !IsDigit(l[n])
  {
    if l == [] || !IsDigit(l[0]) then 0 else 1 + LeadingDigits(l[1..])
  }

  /** re.match(r'^\d+\.', l): one or more digits, then a dot. As `.` is not a
      digit, the digits matched are the whole leading run. */
  predicate StartsNumbered(l: string)
  {
    var n := LeadingDigits(l);
    0 < n < |l| && l[n] == '.'
  }

  /** l.startswith(('-', '•', '→')) */
  predicate StartsBullet(l: string)
  {
    l != [] && (l[0] == '-' || l[0] == BulletGlyph || l[0] == ArrowGlyph)
  }

  /** l.endswith(':') */
  predicate EndsWithColon(l: string)
  {
    l != [] && l[|l| - 1] == ':'
  }

  /** The rewrite of one stripped line: heading, then numbered, then bullet,
      else unchanged. */
  function FormatLine(l: string): string
  {
    if EndsWithColon(l) then "*" + l + "*"
    else if StartsNumbered(l) then NumberedMark + l
    else if StartsBullet(l) then [BulletGlyph, ' '] + Strip(l[1..])
    else l
  }

  /** The numbered rule needs an unescaped `.` after the digits. */
  lemma NumberedNeedsBareDot(l: string)
    requires Guarded(l, '.')
    ensures !StartsNumbered(l)
  {
    var n := LeadingDigits(l);
    if 0 < n < |l| {
      assert l[n] == '.' ==> l[n - 1] == '\\';
      assert IsDigit(l[n - 1]);
    }
  }

  /** The `-` alternative of the bullet rule needs a bare leading `-`. */
  lemma DashNeedsBareDash(l: string)
    requires Guarded(l, '-')
    ensures l == [] || l[0] != '-'
  {
  }

  // ---------------------------------------------------------------------------
  // format_for_telegram

  /** The lines the formatter works on: the stripped, non-blank lines of the
      prepared text. */
  function PreparedLines(text: string): seq<string>
  {
    NonBlankStripped(Split(Prepare(text), '\n'))
  }

  /** The rewrite applied to each line of ls. */
  function FormatAll(ls: seq<string>): (r: seq<string>)
    ensures |r| == |ls|
    ensures forall k :: 0 <= k < |ls| ==> r[k] == FormatLine(ls[k])
  {
    if ls == [] then [] else FormatAll(ls[..|ls| - 1]) + [FormatLine(ls[|ls| - 1])]
  }

  /** The paragraphs of the message: one per non-blank line, in order. */
  function Paragraphs(text: string): seq<string>
  {
    FormatAll(PreparedLines(text))
  }

  /** What format_for_telegram returns. */
  function FormatSpec(text: string): string
  {
    if text == [] then [] else JoinWith(Paragraphs(text), "\n\n")
  }

  /** format_for_telegram, step by step as bot.py does it. */
  method FormatForTelegram(text: string) returns (message: string)
    ensures message == FormatSpec(text)
    ensures text == [] ==> message == []
  {
    if text == [] {
      return [];
    }
    var escaped := EscapeMarkdown(text);
    escaped := Replace(Replace(escaped, "\\*", "*"), "\\_", "_");
    var pieces := Split(escaped, '\n');
    var lines: seq<string> := [];
    for k := 0 to |pieces|
      invariant lines == FormatAll(NonBlankStripped(pieces[..k]))
    {
      FormatStep(pieces, k);
      var line := Strip(pieces[k]);
      if line == [] {
        continue;
      }
      if EndsWithColon(line) {
        line := "*" + line + "*";
      } else if StartsNumbered(line) {
        line := NumberedMark + line;
      } else if StartsBullet(line) {
        line := [BulletGlyph, ' '] + Strip(line[1..]);
      }
      lines := lines + [line];
    }
    assert pieces[..|pieces|] == pieces;
    message := JoinWith(lines, "\n\n");
  }

  /** One more piece adds at most one formatted line. */
  lemma FormatStep(pieces: seq<string>, k: nat)
    requires k < |pieces|
    ensures var line := Strip(pieces[k]);
      FormatAll(NonBlankStripped(pieces[..k + 1])) ==
        if line == [] then FormatAll(NonBlankStripped(pieces[..k]))
        else FormatAll(NonBlankStripped(pieces[..k])) + [FormatLine(line)]
  {
    assert pieces[..k + 1] == pieces[..k] + [pieces[k]];
    NonBlankStrippedSnoc(pieces[..k], pieces[k]);
    var nb := NonBlankStripped(pieces[..k]);
    var line := Strip(pieces[k]);
    if line != [] {
      assert (nb + [line])[..|nb|] == nb;
    }
  }

  /** Every line the formatter sees keeps every still-escaped character
      behind a backslash. */
  lemma PreparedLineGuarded(text: string, k: nat, c: char)
    requires k < |PreparedLines(text)| && c in StillEscaped
    ensures Guarded(PreparedLines(text)[k], c)
  {
    var pieces := Split(Prepare(text), '\n');
    PrepareEscapesRest(text);
    EscapeGuards(text, StillEscaped, c);
    NonBlankStrippedFrom(pieces, k);
    var i :| 0 <= i < |pieces| && Strip(pieces[i]) == PreparedLines(text)[k];
    SplitGuarded(Prepare(text), c, '\n', i);
    StripGuarded(pieces[i], c);
  }

  /** The numbered rule and the `-` bullet never fire: `.` and `-` were
      escaped, so each line gets the heading rule, the `•`/`→` bullet rule, or
      passes unchanged. */
  lemma EffectiveLineRule(text: string, k: nat)
    requires k < |PreparedLines(text)|
    ensures var l := PreparedLines(text)[k];
      && l != []
      && !StartsNumbered(l)
      && l[0] != '-'
      && Paragraphs(text)[k] ==
           if EndsWithColon(l) then "*" + l + "*"
           else if l[0] == BulletGlyph || l[0] == ArrowGlyph then [BulletGlyph, ' '] + Strip(l[1..])
           else l
  {
    var l := PreparedLines(text)[k];
    PreparedLineGuarded(text, k, '.');
    PreparedLineGuarded(text, k, '-');
    NumberedNeedsBareDot(l);
    DashNeedsBareDash(l);
  }

  /** Every still-escaped character of the message comes right after a
      backslash: the formatter only adds `*`, `•`, `▪️`, spaces and line
      breaks. */
  lemma MessageGuarded(text: string, c: char)
    requires c in StillEscaped
    ensures Guarded(FormatSpec(text), c)
  {
    if text != [] {
      var ps := Paragraphs(text);
      forall k | 0 <= k < |ps|
        ensures Guarded(ps[k], c)
      {
        ParagraphGuarded(text, k, c);
      }
      BreaksGuarded(c);
      JoinGuarded(ps, "\n\n", c);
    }
  }

  lemma BreaksGuarded(c: char)
    requires c in StillEscaped
    ensures Guarded("\n\n", c)
  {
  }

  lemma ParagraphGuarded(text: string, k: nat, c: char)
    requires k < |PreparedLines(text)| && c in StillEscaped
    ensures Guarded(Paragraphs(text)[k], c)
  {
    var l := PreparedLines(text)[k];
    PreparedLineGuarded(text, k, c);
    EffectiveLineRule(text, k);
    RewriteGuarded(l, c);
  }

  /** The heading and `•`/`→` bullet rewrites keep a line's guard. */
  lemma RewriteGuarded(l: string, c: char)
    requires l != [] && Guarded(l, c) && c in StillEscaped
    ensures Guarded(if EndsWithColon(l) then "*" + l + "*"
                    else if l[0] == BulletGlyph || l[0] == ArrowGlyph then [BulletGlyph, ' '] + Strip(l[1..])
                    else l, c)
  {
    if EndsWithColon(l) {
      HeadingGuarded(l, c);
    } else if l[0] == BulletGlyph || l[0] == ArrowGlyph {
      BulletGuarded(l, c);
    }
  }

  lemma HeadingGuarded(l: string, c: char)
    requires Guarded(l, c) && c in StillEscaped
    ensures Guarded("*" + l + "*", c)
  {
    GuardedAppend("*", l, c);
    GuardedAppend("*" + l, "*", c);
  }

  lemma BulletGuarded(l: string, c: char)
    requires l != [] && l[0] != '\\' && Guarded(l, c) && c in StillEscaped
    ensures Guarded([BulletGlyph, ' '] + Strip(l[1..]), c)
  {
    GuardedSlice(l, c, 1, |l|);
    StripGuarded(l[1..], c);
    GuardedAppend([BulletGlyph, ' '], Strip(l[1..]), c);
  }

  lemma {:induction false} JoinGuarded(ps: seq<string>, sep: string, c: char)
    requires Guarded(sep, c)
    requires forall k :: 0 <= k < |ps| ==> Guarded(ps[k], c)
    ensures Guarded(JoinWith(ps, sep), c)
  {
    if |ps| > 1 {
      JoinGuarded(ps[1..], sep, c);
      GuardedAppend(ps[0], sep, c);
      GuardedAppend(ps[0] + sep, JoinWith(ps[1..], sep), c);
    }
  }

  // ---------------------------------------------------------------------------
  // The formatter's lines are the input's lines, escaped

  /** ls with every line escaped. */
  function EscapeEach(ls: seq<string>, cs: set<char>): (r: seq<string>)
    ensures |r| == |ls|
    ensures forall k :: 0 <= k < |ls| ==> r[k] == EscapeWith(ls[k], cs)
  {
    if ls == [] then [] else [EscapeWith(ls[0], cs)] + EscapeEach(ls[1..], cs)
  }

  lemma EscapeEachAppend(a: seq<string>, b: seq<string>, cs: set<char>)
    ensures EscapeEach(a + b, cs) == EscapeEach(a, cs) + EscapeEach(b, cs)
  {
  }

  /** Escaping works character by character. */
  lemma {:induction false} EscapeAppend(a: string, b: string, cs: set<char>)
    ensures EscapeWith(a + b, cs) == EscapeWith(a, cs) + EscapeWith(b, cs)
  {
    if a == [] {
      assert a + b == b;
    } else {
      assert (a + b)[1..] == a[1..] + b;
      EscapeAppend(a[1..], b, cs);
    }
  }

  /** Escaping adds no character other than the backslash. */
  lemma {:induction false} EscapeAbsent(s: string, cs: set<char>, c: char)
    requires c != '\\' && c !in s
    ensures c !in EscapeWith(s, cs)
  {
    if s != [] {
      assert c !in s[1..];
      EscapeAbsent(s[1..], cs, c);
    }
  }

  /** A text with no character of cs is its own escape. */
  lemma {:induction false} EscapePlain(s: string, cs: set<char>)
    requires forall i :: 0 <= i < |s| ==> s[i] !in cs
    ensures EscapeWith(s, cs) == s
  {
    if s != [] {
      EscapePlain(s[1..], cs);
    }
  }

  /** Escaping keeps the first character or puts a backslash before it, and
      keeps the last character. */
  lemma EscapeEnds(s: string, cs: set<char>)
    requires s != []
    ensures EscapeWith(s, cs) != []
    ensures EscapeWith(s, cs)[0] == (if s[0] in cs then '\\' else s[0])
    ensures EscapeWith(s, cs)[|EscapeWith(s, cs)| - 1] == s[|s| - 1]
  {
    var i := |s| - 1;
    assert s == s[..i] + [s[i]];
    EscapeAppend(s[..i], [s[i]], cs);
    assert [s[i]][1..] == [];
  }

  /** strip() and escaping commute when no escaped character is whitespace. */
  lemma StripEscape(x: string, cs: set<char>)
    requires forall c :: c in cs ==> !IsSpace(c)
    ensures Strip(EscapeWith(x, cs)) == EscapeWith(Strip(x), cs)
  {
    var m := Strip(x);
    var a, b := StripParts(x);
    if m != [] {
      EscapeSolidEnds(m, cs);
    }
    EscapeAround(a, m, b, cs);
    StripFrame(a, EscapeWith(m, cs), b);
  }

  /** Escaping a text that starts and ends with a non-space character gives
      a text that does too, when no escaped character is whitespace. */
  lemma EscapeSolidEnds(m: string, cs: set<char>)
    requires forall c :: c in cs ==> !IsSpace(c)
    requires m != [] && !IsSpace(m[0]) && !IsSpace(m[|m| - 1])
    ensures EscapeWith(m, cs) != []
    ensures !IsSpace(EscapeWith(m, cs)[0]) && !IsSpace(EscapeWith(m, cs)[|EscapeWith(m, cs)| - 1])
  {
    EscapeEnds(m, cs);
    assert !IsSpace('\\');
  }

  /** Escaping leaves whitespace around a text as it is, when no escaped
      character is whitespace. */
  lemma EscapeAround(a: string, m: string, b: string, cs: set<char>)
    requires forall c :: c in cs ==> !IsSpace(c)
    requires forall i :: 0 <= i < |a| ==> IsSpace(a[i])
    requires forall i :: 0 <= i < |b| ==> IsSpace(b[i])
    ensures EscapeWith(a + m + b, cs) == a + EscapeWith(m, cs) + b
  {
    EscapePlain(a, cs);
    EscapePlain(b, cs);
    EscapeAppend(a + m, b, cs);
    EscapeAppend(a, m, cs);
  }

  /** A line is blank after escaping exactly when it was blank before. */
  lemma KeptEscape(x: string, cs: set<char>)
    requires forall c :: c in cs ==> !IsSpace(c)
    ensures Kept(EscapeWith(x, cs)) == EscapeEach(Kept(x), cs)
  {
    StripEscape(x, cs);
    if Strip(x) != [] {
      EscapeEnds(Strip(x), cs);
    }
  }

  /** Dropping blank lines commutes with escaping every line. */
  lemma {:induction false} NonBlankStrippedEscape(ls: seq<string>, cs: set<char>)
    requires forall c :: c in cs ==> !IsSpace(c)
    ensures NonBlankStripped(EscapeEach(ls, cs)) == EscapeEach(NonBlankStripped(ls), cs)
  {
    if ls != [] {
      var e := EscapeEach(ls, cs);
      assert e[1..] == EscapeEach(ls[1..], cs);
      NonBlankStrippedEscape(ls[1..], cs);
      KeptEscape(ls[0], cs);
      EscapeEachAppend(Kept(ls[0]), NonBlankStripped(ls[1..]), cs);
    }
  }

  /** Splitting an escaped text at a separator that is neither escaped nor
      the backslash gives the escaped pieces of the text. */
  lemma {:induction false} SplitEscape(s: string, cs: set<char>, sep: char)
    requires sep != '\\' && sep !in cs
    ensures Split(EscapeWith(s, cs), sep) == EscapeEach(Split(s, sep), cs)
    decreases |s|
  {
    var i := IndexOf(s, sep);
    var e := EscapeWith(s, cs);
    if i == |s| {
      assert sep !in e by {
        EscapeAbsent(s, cs, sep);
      }
      assert Split(s, sep) == [s];
      assert Split(e, sep) == [e];
    } else {
      var a, b := s[..i], s[i + 1..];
      var ea, eb := EscapeWith(a, cs), EscapeWith(b, cs);
      assert e == ea + [sep] + eb by {
        assert s == a + [sep] + b;
        EscapeAppend(a + [sep], b, cs);
        EscapeAppend(a, [sep], cs);
        assert [sep][1..] == [];
      }
      assert Split(e, sep) == [ea] + Split(eb, sep) by {
        assert sep !in a;
        EscapeAbsent(a, cs, sep);
        SplitAfter(ea, sep, eb);
      }
      SplitEscape(b, cs, sep);
      assert Split(s, sep) == [a] + Split(b, sep);
      assert EscapeEach([a] + Split(b, sep), cs) == [ea] + EscapeEach(Split(b, sep), cs) by {
        EscapeEachAppend([a], Split(b, sep), cs);
        assert EscapeEach([a], cs) == [ea];
      }
    }
  }

  /** The lines format_for_telegram rewrites are the stripped, non-blank
      lines of its input, in order, each escaped except for `*` and `_`. */
  lemma PreparedLinesOfInput(text: string)
    ensures PreparedLines(text) == EscapeEach(NonBlankStripped(Split(text, '\n')), StillEscaped)
  {
    PrepareEscapesRest(text);
    SplitEscape(text, StillEscaped, '\n');
    NonBlankStrippedEscape(Split(text, '\n'), StillEscaped);
  }

  // ---------------------------------------------------------------------------
  // Reading the message back

  /** The non-empty pieces of ps, in order. */
  function NonEmpty(ps: seq<string>): seq<string>
  {
    if ps == [] then [] else (if ps[0] == [] then [] else [ps[0]]) + NonEmpty(ps[1..])
  }

  /** No paragraph is empty and none contains a line break. */
  lemma ParagraphsAreLines(text: string, k: nat)
    requires k < |Paragraphs(text)|
    ensures Paragraphs(text)[k] != [] && '\n' !in Paragraphs(text)[k]
  {
    var l := PreparedLines(text)[k];
    PreparedLineSingle(text, k);
    EffectiveLineRule(text, k);
    if !EndsWithColon(l) && (l[0] == BulletGlyph || l[0] == ArrowGlyph) {
      StripKeepsOut(l[1..], '\n');
    }
  }

  /** Stripping only removes characters. */
  lemma StripKeepsOut(t: string, c: char)
    requires c !in t
    ensures c !in Strip(t)
  {
    var a := LeadingSpace(t);
    assert Strip(t) == t[a..a + |Strip(t)|];
  }

  lemma PreparedLineSingle(text: string, k: nat)
    requires k < |PreparedLines(text)|
    ensures '\n' !in PreparedLines(text)[k]
  {
    var pieces := Split(Prepare(text), '\n');
    NonBlankStrippedFrom(pieces, k);
    var i :| 0 <= i < |pieces| && Strip(pieces[i]) == PreparedLines(text)[k];
    SplitPieceFree(Prepare(text), '\n', i);
    StripKeepsOut(pieces[i], '\n');
  }

  /** Splitting a "\n\n"-join of non-empty, single-line paragraphs at line
      breaks and dropping the empty pieces gives back the paragraphs. */
  lemma {:induction false} SplitJoinParagraphs(ps: seq<string>)
    requires forall k :: 0 <= k < |ps| ==> ps[k] != [] && '\n' !in ps[k]
    ensures NonEmpty(Split(JoinWith(ps, "\n\n"), '\n')) == ps
  {
    if ps == [] {
      assert Split([], '\n') == [[]];
    } else if |ps| == 1 {
      assert Split(ps[0], '\n') == [ps[0]];
    } else {
      var j := JoinWith(ps[1..], "\n\n");
      SplitJoinParagraphs(ps[1..]);
      JoinCons(ps[0], ps[1..], "\n\n");
      assert ps == [ps[0]] + ps[1..];
      SplitParagraph(ps[0], j);
      NonEmptyParagraph(ps[0], Split(j, '\n'));
    }
  }

  /** A paragraph, a blank line, and the rest split into the paragraph, an
      empty piece, and the pieces of the rest. */
  lemma SplitParagraph(p: string, j: string)
    requires '\n' !in p
    ensures Split(p + "\n\n" + j, '\n') == [p, []] + Split(j, '\n')
  {
    var t := ['\n'] + j;
    assert p + "\n\n" + j == p + ['\n'] + t;
    SplitAfter(p, '\n', t);
    SplitBreak(j);
  }

  lemma SplitBreak(j: string)
    ensures Split(['\n'] + j, '\n') == [[]] + Split(j, '\n')
  {
    assert ['\n'] + j == [] + ['\n'] + j;
    SplitAfter([], '\n', j);
  }

  lemma NonEmptyParagraph(p: string, rest: seq<string>)
    requires p != []
    ensures NonEmpty([p, []] + rest) == [p] + NonEmpty(rest)
  {
    assert ([p, []] + rest)[1..] == [[]] + rest;
    assert ([[]] + rest)[1..] == rest;
  }

  /** The message is the formatted lines joined by blank lines: reading it
      back line by line, without the empty lines, gives exactly one
      paragraph per non-blank input line, in order: paragraph k is the
      rewrite of the k-th non-blank input line, stripped and escaped. */
  lemma MessageParagraphs(text: string)
    ensures NonEmpty(Split(FormatSpec(text), '\n')) == Paragraphs(text)
    ensures |Paragraphs(text)| == |NonBlankStripped(Split(text, '\n'))|
    ensures forall k :: 0 <= k < |Paragraphs(text)| ==>
              Paragraphs(text)[k] == FormatLine(EscapeWith(NonBlankStripped(Split(text, '\n'))[k], StillEscaped))
  {
    PreparedLinesOfInput(text);
    if text == [] {
      assert Split([], '\n') == [[]];
      assert PreparedLines([]) == [] by {
        assert Prepare([]) == [];
        assert Split([], '\n') == [[]];
        assert Strip([]) == [];
      }
    } else {
      forall k | 0 <= k < |Paragraphs(text)|
        ensures Paragraphs(text)[k] != [] && '\n' !in Paragraphs(text)[k]
      {
        ParagraphsAreLines(text, k);
      }
      SplitJoinParagraphs(Paragraphs(text));
    }
  }

  /** An answer of three non-blank, already stripped lines: the message is
      the three rewritten escaped lines, joined by blank lines. */
  lemma ThreeLines(l1: string, l2: string, l3: string)
    requires l1 != [] && l2 != [] && l3 != []
    requires Strip(l1) == l1 && Strip(l2) == l2 && Strip(l3) == l3
    requires '\n' !in l1 && '\n' !in l2 && '\n' !in l3
    ensures FormatSpec(l1 + ['\n'] + l2 + ['\n'] + l3) ==
            FormatLine(EscapeWith(l1, StillEscaped)) + "\n\n" +
            FormatLine(EscapeWith(l2, StillEscaped)) + "\n\n" +
            FormatLine(EscapeWith(l3, StillEscaped))
  {
    var text := l1 + ['\n'] + l2 + ['\n'] + l3;
    ThreeParagraphs(l1, l2, l3);
    JoinThree(FormatLine(EscapeWith(l1, StillEscaped)),
              FormatLine(EscapeWith(l2, StillEscaped)),
              FormatLine(EscapeWith(l3, StillEscaped)), "\n\n");
  }

  lemma ThreeParagraphs(l1: string, l2: string, l3: string)
    requires l1 != [] && l2 != [] && l3 != []
    requires Strip(l1) == l1 && Strip(l2) == l2 && Strip(l3) == l3
    requires '\n' !in l1 && '\n' !in l2 && '\n' !in l3
    ensures Paragraphs(l1 + ['\n'] + l2 + ['\n'] + l3) ==
            [FormatLine(EscapeWith(l1, StillEscaped)),
             FormatLine(EscapeWith(l2, StillEscaped)),
             FormatLine(EscapeWith(l3, StillEscaped))]
  {
    var text := l1 + ['\n'] + l2 + ['\n'] + l3;
    var e1, e2, e3 := EscapeWith(l1, StillEscaped), EscapeWith(l2, StillEscaped), EscapeWith(l3, StillEscaped);
    ThreeLinesRead(l1, l2, l3);
    PreparedLinesOfInput(text);
    EscapeEachThree(l1, l2, l3, StillEscaped);
    FormatAllThree(e1, e2, e3);
  }

  lemma ThreeLinesRead(l1: string, l2: string, l3: string)
    requires l1 != [] && l2 != [] && l3 != []
    requires Strip(l1) == l1 && Strip(l2) == l2 && Strip(l3) == l3
    requires '\n' !in l1 && '\n' !in l2 && '\n' !in l3
    ensures NonBlankStripped(Split(l1 + ['\n'] + l2 + ['\n'] + l3, '\n')) == [l1, l2, l3]
  {
    SplitThree(l1, l2, l3);
    NonBlankStrippedFixed([l1, l2, l3]);
  }

  lemma SplitThree(l1: string, l2: string, l3: string)
    requires '\n' !in l1 && '\n' !in l2 && '\n' !in l3
    ensures Split(l1 + ['\n'] + l2 + ['\n'] + l3, '\n') == [l1, l2, l3]
  {
    assert l1 + ['\n'] + l2 + ['\n'] + l3 == l1 + ['\n'] + (l2 + ['\n'] + l3);
    SplitAfter(l1, '\n', l2 + ['\n'] + l3);
    SplitAfter(l2, '\n', l3);
    assert Split(l3, '\n') == [l3];
  }

  lemma EscapeEachThree(a: string, b: string, c: string, cs: set<char>)
    ensures EscapeEach([a, b, c], cs) == [EscapeWith(a, cs), EscapeWith(b, cs), EscapeWith(c, cs)]
  {
    var es := EscapeEach([a, b, c], cs);
    assert |es| == 3 && es[0] == EscapeWith(a, cs) && es[1] == EscapeWith(b, cs) && es[2] == EscapeWith(c, cs);
  }

  lemma FormatAllThree(a: string, b: string, c: string)
    ensures FormatAll([a, b, c]) == [FormatLine(a), FormatLine(b), FormatLine(c)]
  {
    var ps := FormatAll([a, b, c]);
    assert |ps| == 3 && ps[0] == FormatLine(a) && ps[1] == FormatLine(b) && ps[2] == FormatLine(c);
  }

  lemma JoinThree(p1: string, p2: string, p3: string, sep: string)
    ensures JoinWith([p1, p2, p3], sep) == p1 + sep + p2 + sep + p3
  {
    JoinCons(p1, [p2, p3], sep);
    JoinCons(p2, [p3], sep);
    assert [p1] + [p2, p3] == [p1, p2, p3] && [p2] + [p3] == [p2, p3];
  }

  // ---------------------------------------------------------------------------
  // A sample answer

  /** A heading, a numbered line and a `-` line, and how the two list lines
      read after escaping. */
  const SampleHeading: string := "Итог:"
  const SampleNumbered: string := "1. Да"
  const SampleDash: string := "- Нет"
  const EscapedNumbered: string := "1\\. Да"
  const EscapedDash: string := "\\- Нет"

  /** The answer "Итог:\n1. Да\n- Нет" becomes three paragraphs. Escaping
      keeps the numbered rule and the `-` rule from firing: only the heading
      is rewritten, and the list lines keep their backslashes. */
  lemma SampleAnswer()
    ensures FormatSpec(SampleHeading + ['\n'] + SampleNumbered + ['\n'] + SampleDash) ==
            "*" + SampleHeading + "*" + "\n\n" + EscapedNumbered + "\n\n" + EscapedDash
  {
    SampleLines();
    ThreeLines(SampleHeading, SampleNumbered, SampleDash);
  }

  /** Each sample line is stripped already, and the line rule applied to
      its escape gives the paragraph. */
  lemma SampleLines()
    ensures Strip(SampleHeading) == SampleHeading
    ensures Strip(SampleNumbered) == SampleNumbered
    ensures Strip(SampleDash) == SampleDash
    ensures '\n' !in SampleHeading && '\n' !in SampleNumbered && '\n' !in SampleDash
    ensures FormatLine(EscapeWith(SampleHeading, StillEscaped)) == "*" + SampleHeading + "*"
    ensures FormatLine(EscapeWith(SampleNumbered, StillEscaped)) == EscapedNumbered
    ensures FormatLine(EscapeWith(SampleDash, StillEscaped)) == EscapedDash
  {
    SampleHeadingStripped();
    SampleNumberedStripped();
    SampleDashStripped();
    SampleHeadingOneLine();
    SampleNumberedOneLine();
    SampleDashOneLine();
    SampleHeadingEscaped();
    SampleNumberedEscaped();
    SampleDashEscaped();
    SampleHeadingRule();
    SampleNumberedRule();
    SampleDashRule();
  }

  lemma SampleHeadingStripped()
    ensures Strip(SampleHeading) == SampleHeading
  {
  }

  lemma SampleNumberedStripped()
    ensures Strip(SampleNumbered) == SampleNumbered
  {
  }

  lemma SampleDashStripped()
    ensures Strip(SampleDash) == SampleDash
  {
  }

  lemma SampleHeadingOneLine()
    ensures '\n' !in SampleHeading
  {
  }

  lemma SampleNumberedOneLine()
    ensures '\n' !in SampleNumbered
  {
  }

  lemma SampleDashOneLine()
    ensures '\n' !in SampleDash
  {
  }

  lemma SampleHeadingEscaped()
    ensures EscapeWith(SampleHeading, StillEscaped) == SampleHeading
  {
  }

  lemma SampleNumberedEscaped()
    ensures EscapeWith(SampleNumbered, StillEscaped) == EscapedNumbered
  {
  }

  lemma SampleDashEscaped()
    ensures EscapeWith(SampleDash, StillEscaped) == EscapedDash
  {
  }

  lemma SampleHeadingRule()
    ensures FormatLine(SampleHeading) == "*" + SampleHeading + "*"
  {
  }

  lemma SampleNumberedRule()
    ensures FormatLine(EscapedNumbered) == EscapedNumbered
  {
  }

  lemma SampleDashRule()
    ensures FormatLine(EscapedDash) == EscapedDash
  {
  }
}
