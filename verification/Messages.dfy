/** The two clean-ups that error texts pass before they reach a client or a log. */
module Messages {
  import opened Basics

  const ELLIPSIS: char := '\U{2026}'

  /** The white space of `str.split` and `str.strip`. */
  predicate IsSpace(c: char) {
    || '\t' <= c <= '\r' || '\U{1c}' <= c <= ' '
    || c == '\U{85}' || c == '\U{a0}' || c == '\U{1680}' || '\U{2000}' <= c <= '\U{200a}'
    || '\U{2028}' <= c <= '\U{2029}' || c == '\U{202f}' || c == '\U{205f}' || c == '\U{3000}'
  }

  /** The line boundaries of `str.splitlines`; all of them are white space. */
  predicate IsLineBreak(c: char) {
    || '\n' <= c <= '\r' || '\U{1c}' <= c <= '\U{1e}'
    || c == '\U{85}' || '\U{2028}' <= c <= '\U{2029}'
  }

  /** The characters are the white space of Unicode together with the four separators of ASCII. */
  lemma SpacesListed(c: char)
    ensures IsSpace(c) <==>
            || c in "\t\n\U{b}\U{c}\r\U{1c}\U{1d}\U{1e}\U{1f} \U{85}\U{a0}\U{1680}\U{2000}\U{2001}\U{2002}\U{2003}"
            || c in "\U{2004}\U{2005}\U{2006}\U{2007}\U{2008}\U{2009}\U{200a}\U{2028}\U{2029}\U{202f}\U{205f}\U{3000}"
    ensures IsLineBreak(c) <==> c in "\n\U{b}\U{c}\r\U{1c}\U{1d}\U{1e}\U{85}\U{2028}\U{2029}"
    ensures IsLineBreak(c) ==> IsSpace(c)
  {
  }

  /** `s[:n]` of Python: a negative bound counts from the end. */
  function UpTo(s: string, n: int): (r: string)
    ensures r <= s
    ensures |r| == if n >= |s| then |s| else if n >= 0 then n else if n >= -|s| then |s| + n else 0
  {
    if n >= 0 then (if n <= |s| then s[..n] else s)
    else if |s| + n >= 0 then s[..|s| + n] else ""
  }

  // ---------------------------------------------------------------- the compact first line

  /** `splitlines()[0]`, with "" for the empty message. */
  function FirstLine(message: string): string {
    if message == "" || IsLineBreak(message[0]) then "" else [message[0]] + FirstLine(message[1..])
  }

  predicate NoBreak(s: string) {
    forall i :: 0 <= i < |s| ==> !IsLineBreak(s[i])
  }

  /** The first line is what stands before the first line break, if there is one. */
  lemma {:induction false} FirstLineMeaning(message: string)
    ensures FirstLine(message) <= message && NoBreak(FirstLine(message))
    ensures |FirstLine(message)| < |message| ==> IsLineBreak(message[|FirstLine(message)|])
  {
    if message != "" && !IsLineBreak(message[0]) {
      FirstLineMeaning(message[1..]);
      assert message == [message[0]] + message[1..];
    }
  }

  lemma {:induction false} FirstLineStops(a: string, rest: string)
    requires NoBreak(a) && (rest == "" || IsLineBreak(rest[0]))
    ensures FirstLine(a + rest) == a
  {
    if a == "" {
      assert a + rest == rest;
    } else {
      assert (a + rest)[0] == a[0] && (a + rest)[1..] == a[1..] + rest;
      FirstLineStops(a[1..], rest);
    }
  }

  /** Whatever follows the first line break has no influence. */
  lemma CompactStopsAtBreak(a: string, c: char, b: string, limit: int)
    requires NoBreak(a) && IsLineBreak(c)
    ensures CompactFirstLine(a + ([c] + b), limit) == CompactFirstLine(a, limit)
  {
    FirstLineStops(a, [c] + b);
    FirstLineStops(a, "");
    assert a + "" == a;
  }

  function TakeWord(s: string): (w: string)
    ensures w <= s && forall i :: 0 <= i < |w| ==> !IsSpace(w[i])
    ensures |w| < |s| ==> IsSpace(s[|w|])
    ensures s != "" && !IsSpace(s[0]) ==> w != ""
  {
    if s == "" || IsSpace(s[0]) then "" else [s[0]] + TakeWord(s[1..])
  }

  /** `split()`: the maximal runs of non-space characters. */
  function Words(s: string): seq<string>
    decreases |s|
  {
    if s == "" then []
    else if IsSpace(s[0]) then Words(s[1..])
    else [TakeWord(s)] + Words(s[|TakeWord(s)|..])
  }

  /** `" ".join(words)` */
  function Join(words: seq<string>): string {
    if words == [] then ""
    else if |words| == 1 then words[0]
    else words[0] + " " + Join(words[1..])
  }

  function CompactFirstLine(message: string, limit: int): string {
    var collapsed := Join(Words(FirstLine(message)));
    if |collapsed| <= limit then collapsed else UpTo(collapsed, limit - 1) + [ELLIPSIS]
  }

  predicate IsWord(w: string) {
    w != "" && forall i :: 0 <= i < |w| ==> !IsSpace(w[i])
  }

  predicate AllWords(ws: seq<string>) {
    forall i :: 0 <= i < |ws| ==> IsWord(ws[i])
  }

  /** Words separated by single spaces, with no space at either end and no other white space. */
  predicate SingleSpaced(s: string) {
    forall i: nat {:trigger SpaceFits(s, i)} :: i < |s| ==> SpaceFits(s, i)
  }

  predicate SpaceFits(s: string, i: nat)
    requires i < |s|
  {
    IsSpace(s[i]) ==> s[i] == ' ' && 0 < i < |s| - 1 && !IsSpace(s[i + 1])
  }

  lemma {:induction false} WordsAreWords(s: string)
    ensures AllWords(Words(s))
    decreases |s|
  {
    if s != "" {
      if IsSpace(s[0]) {
        WordsAreWords(s[1..]);
      } else {
        WordsAreWords(s[|TakeWord(s)|..]);
      }
    }
  }

  lemma {:induction false} JoinSingleSpaced(ws: seq<string>)
    requires AllWords(ws)
    ensures SingleSpaced(Join(ws))
    ensures ws != [] ==> Join(ws) != "" && !IsSpace(Join(ws)[0])
  {
    if |ws| == 1 {
      assert IsWord(ws[0]);
    } else if |ws| > 1 {
      JoinSingleSpaced(ws[1..]);
      assert IsWord(ws[0]);
      var head, tail := ws[0], Join(ws[1..]);
      var s := head + " " + tail;
      forall i: nat | i < |s| ensures SpaceFits(s, i) {
        if i > |head| {
          assert SpaceFits(tail, i - |head| - 1);
        }
      }
    }
  }

  lemma {:induction false} TakeWordOf(w: string, rest: string)
    requires (forall i :: 0 <= i < |w| ==> !IsSpace(w[i])) && (rest == "" || IsSpace(rest[0]))
    ensures TakeWord(w + rest) == w
  {
    if w != "" {
      assert (w + rest)[0] == w[0] && (w + rest)[1..] == w[1..] + rest;
      TakeWordOf(w[1..], rest);
    } else {
      assert w + rest == rest;
    }
  }

  /** Splitting undoes joining. */
  lemma {:induction false} WordsOfJoin(ws: seq<string>)
    requires AllWords(ws)
    ensures Words(Join(ws)) == ws
  {
    if ws != [] {
      var head := ws[0];
      assert IsWord(head);
      if |ws| == 1 {
        TakeWordOf(head, "");
        assert head + "" == head;
        assert Words(head[|head|..]) == [];
      } else {
        var tail := Join(ws[1..]);
        TakeWordOf(head, " " + tail);
        WordsOfJoin(ws[1..]);
        var s := head + " " + tail;
        assert s == head + (" " + tail) && s[0] == head[0];
        assert s[|head|..] == " " + tail;
        assert (" " + tail)[1..] == tail;
        assert Words(" " + tail) == Words(tail);
      }
    }
  }

  lemma SingleSpacedSuffix(s: string, n: nat)
    requires SingleSpaced(s) && n < |s| && !IsSpace(s[n])
    ensures SingleSpaced(s[n..])
  {
    var r := s[n..];
    forall i: nat | i < |r| ensures SpaceFits(r, i) {
      assert SpaceFits(s, n + i);
    }
  }

  /** Joining undoes splitting on text that is already single-spaced. */
  lemma {:induction false} JoinOfWords(s: string)
    requires SingleSpaced(s)
    ensures Join(Words(s)) == s
    decreases |s|
  {
    if s != "" {
      assert SpaceFits(s, 0);
      var w := TakeWord(s);
      var rest := s[|w|..];
      assert s == w + rest;
      if rest != "" {
        var tail := s[|w| + 1..];
        assert rest == " " + tail && rest[1..] == tail;
        assert SpaceFits(s, |w|);
        SingleSpacedSuffix(s, |w| + 1);
        JoinOfWords(tail);
        assert Words(rest) == Words(tail) != [];
        assert Join([w] + Words(tail)) == w + " " + tail by {
          assert ([w] + Words(tail))[1..] == Words(tail);
        }
      } else {
        assert Words(rest) == [];
      }
    }
  }

  lemma {:induction false} FirstLineOfSpaced(s: string)
    requires forall i :: 0 <= i < |s| && IsSpace(s[i]) ==> s[i] == ' '
    ensures FirstLine(s) == s
  {
    if s != "" {
      assert IsLineBreak(s[0]) ==> IsSpace(s[0]);
      FirstLineOfSpaced(s[1..]);
    }
  }

  lemma {:induction false} TakeWordBefore(a: string, c: char, b: string)
    requires IsSpace(c)
    ensures TakeWord(a + [c] + b) == TakeWord(a)
  {
    var s := a + [c] + b;
    if a != "" && !IsSpace(a[0]) {
      assert s[0] == a[0] && s[1..] == a[1..] + [c] + b;
      TakeWordBefore(a[1..], c, b);
    } else if a == "" {
      assert s[0] == c;
    } else {
      assert s[0] == a[0];
    }
  }

  /** Any white space separates words, however much of it there is. */
  lemma {:induction false} WordsSplit(a: string, c: char, b: string)
    requires IsSpace(c)
    ensures Words(a + [c] + b) == Words(a) + Words(b)
    decreases |a|
  {
    var s := a + [c] + b;
    if a == "" {
      assert s[0] == c && s[1..] == b;
    } else if IsSpace(a[0]) {
      assert s[0] == a[0] && s[1..] == a[1..] + [c] + b;
      WordsSplit(a[1..], c, b);
    } else {
      var n := |TakeWord(a)|;
      assert s[0] == a[0] && s[n..] == a[n..] + [c] + b;
      TakeWordBefore(a, c, b);
      WordsSplit(a[n..], c, b);
    }
  }

  lemma WordAlone(w: string)
    requires IsWord(w)
    ensures Words(w) == [w] && Words("") == []
  {
    TakeWordOf(w, "");
    assert w + "" == w && w[|w|..] == "";
  }

  /** A line that is too long is cut to the limit, of which the last character tells of the cut. */
  lemma CompactCutsToLimit(message: string, limit: int)
    requires 1 <= limit < |Join(Words(FirstLine(message)))|
    ensures var cut := CompactFirstLine(message, limit);
            && |cut| == limit && cut[limit - 1] == '\U{2026}'
            && cut[..limit - 1] == Join(Words(FirstLine(message)))[..limit - 1]
  {
  }

  lemma CompactIsSingleSpaced(message: string, limit: int)
    ensures SingleSpaced(CompactFirstLine(message, limit))
  {
    var words := Words(FirstLine(message));
    WordsAreWords(FirstLine(message));
    JoinSingleSpaced(words);
    var collapsed := Join(words);
    if |collapsed| > limit {
      var kept := UpTo(collapsed, limit - 1);
      var s := kept + [ELLIPSIS];
      forall i: nat | i < |s| ensures SpaceFits(s, i) {
        if i < |kept| {
          assert SpaceFits(collapsed, i);
        }
      }
    }
  }

  /** The text that fits keeps exactly the words of the first line. */
  lemma CompactKeepsWords(message: string, limit: int)
    requires |Join(Words(FirstLine(message)))| <= limit
    ensures Words(CompactFirstLine(message, limit)) == Words(FirstLine(message))
  {
    WordsAreWords(FirstLine(message));
    WordsOfJoin(Words(FirstLine(message)));
  }

  /** The length bound holds for every limit of at least 1, and below that only for nothing at limit 0. */
  lemma CompactLength(message: string, limit: int)
    ensures |CompactFirstLine(message, limit)| <= limit <==>
            limit >= 1 || (limit == 0 && Words(FirstLine(message)) == [])
  {
    WordsAreWords(FirstLine(message));
    JoinSingleSpaced(Words(FirstLine(message)));
  }

  lemma CompactTwice(message: string, limit: int)
    ensures var once := CompactFirstLine(message, limit); Join(Words(FirstLine(once))) == once
  {
    var once := CompactFirstLine(message, limit);
    CompactIsSingleSpaced(message, limit);
    forall i | 0 <= i < |once| && IsSpace(once[i]) ensures once[i] == ' ' {
      assert SpaceFits(once, i);
    }
    FirstLineOfSpaced(once);
    JoinOfWords(once);
  }

  /** Compacting twice is compacting once, exactly unless a negative limit eats into the text both times. */
  lemma CompactIdempotentIff(message: string, limit: int)
    ensures CompactFirstLine(CompactFirstLine(message, limit), limit) == CompactFirstLine(message, limit) <==>
            limit >= 0 || |Join(Words(FirstLine(message)))| <= 1 - limit
  {
    CompactTwice(message, limit);
    var once := CompactFirstLine(message, limit);
    if |once| > limit {
      var kept := UpTo(once, limit - 1);
      assert limit >= 0 ==> |once| == limit + 1 || limit == 0;
      assert kept + [ELLIPSIS] == once <==> |kept| + 1 == |once|;
    }
  }

  // ---------------------------------------------------------------- database error messages

  /** Position of the first ')' at or after i; |s| if there is none. */
  function FindClose(s: string, i: nat): (j: nat)
    requires i <= |s|
    ensures i <= j <= |s|
    ensures forall k :: i <= k < j ==> s[k] != ')'
    ensures j < |s| ==> s[j] == ')'
    decreases |s| - i
  {
    if i == |s| || s[i] == ')' then i else FindClose(s, i + 1)
  }

  const MASKED := "=(" + [ELLIPSIS] + ")"

  /** Substitutes "=(…)" for every leftmost match of an equals sign followed by a parenthesised value. */
  function MaskConstraintValues(s: string): string
    decreases |s|
  {
    if s == "" then ""
    else if s[0] == '=' && |s| > 1 && s[1] == '(' && FindClose(s, 2) < |s|
    then MASKED + MaskConstraintValues(s[FindClose(s, 2) + 1..])
    else [s[0]] + MaskConstraintValues(s[1..])
  }

  predicate IsQuote(c: char) {
    c == '\'' || c == '"'
  }

  /**
   End of a quoted literal whose body is read from i, or None. The body prefers a backslash with
   its next character, then any single character that is not the quote, then the closing quote;
   a choice that leads nowhere is taken back. No body character is a newline.
   */
  function QuoteEnd(s: string, quote: char, i: nat): (r: Option<nat>)
    ensures r.Some? ==> i < r.value <= |s| && s[r.value - 1] == quote
    decreases |s| - i
  {
    if i >= |s| then None
    else
      var escaped := if s[i] == '\\' && i + 1 < |s| && s[i + 1] != '\n' then QuoteEnd(s, quote, i + 2) else None;
      if escaped.Some? then escaped
      else
        var plain := if s[i] != quote && s[i] != '\n' then QuoteEnd(s, quote, i + 1) else None;
        if plain.Some? then plain
        else if s[i] == quote then Some(i + 1) else None
  }

  const QUOTED := "'" + [ELLIPSIS] + "'"

  function MaskQuotedLiterals(s: string): string
    decreases |s|
  {
    if s == "" then ""
    else if IsQuote(s[0]) && QuoteEnd(s, s[0], 1).Some?
    then QUOTED + MaskQuotedLiterals(s[QuoteEnd(s, s[0], 1).value..])
    else [s[0]] + MaskQuotedLiterals(s[1..])
  }

  function StripLeft(s: string): (r: string)
    ensures |r| <= |s| && r == s[|s| - |r|..]
  {
    if s != "" && IsSpace(s[0]) then StripLeft(s[1..]) else s
  }

  function StripRight(s: string): (r: string)
    ensures r <= s
  {
    if s != "" && IsSpace(s[|s| - 1]) then StripRight(s[..|s| - 1]) else s
  }

  const MAX_ERROR_MESSAGE_LENGTH := 200

  function SanitizeErrorMessage(message: string): string {
    if message == "" then ""
    else UpTo(StripRight(StripLeft(MaskQuotedLiterals(MaskConstraintValues(message)))), MAX_ERROR_MESSAGE_LENGTH)
  }

  ghost predicate ClosedValueAt(s: string, i: nat) {
    i + 2 <= |s| && s[i] == '=' && s[i + 1] == '(' && ')' in s[i + 2..]
  }

  /** Every "=(" that is closed later is exactly "=(…)"; what follows a value's own first ')' is not its concern. */
  ghost predicate ValuesMasked(s: string) {
    forall i: nat {:trigger ClosedValueAt(s, i)} :: ClosedValueAt(s, i) ==> MASKED <= s[i..]
  }

  lemma {:induction false} MaskKeepsCloses(s: string)
    ensures ')' in MaskConstraintValues(s) ==> ')' in s
    ensures MaskConstraintValues(s) != "" && MaskConstraintValues(s)[0] == '(' ==> s != "" && s[0] == '('
    decreases |s|
  {
    if s != "" {
      if s[0] == '=' && |s| > 1 && s[1] == '(' && FindClose(s, 2) < |s| {
        assert s[FindClose(s, 2)] == ')';
      } else {
        MaskKeepsCloses(s[1..]);
        assert s == [s[0]] + s[1..];
      }
    }
  }

  /** Putting a character in front keeps the property unless it opens an unmasked value. */
  lemma MaskedCons(c: char, rest: string)
    requires ValuesMasked(rest)
    requires c == '=' && rest != "" && rest[0] == '(' && ')' in rest[1..] ==> MASKED <= [c] + rest
    ensures ValuesMasked([c] + rest)
  {
    var s := [c] + rest;
    forall i: nat | ClosedValueAt(s, i) ensures MASKED <= s[i..] {
      assert s[i + 2..] == rest[i + 1..];
      if i > 0 {
        assert ClosedValueAt(rest, i - 1);
        assert s[i..] == rest[i - 1..];
      } else {
        assert s[0..] == s;
      }
    }
  }

  lemma MaskedPrefix(rest: string)
    requires ValuesMasked(rest)
    ensures ValuesMasked(MASKED + rest)
  {
    var one := [')'] + rest;
    var two := [ELLIPSIS] + one;
    var three := ['('] + two;
    MaskedCons(')', rest);
    MaskedCons(ELLIPSIS, one);
    MaskedCons('(', two);
    assert MASKED + rest == ['='] + three;
    MaskedCons('=', three);
  }

  lemma {:induction false} MaskConstraintValuesMasks(s: string)
    ensures ValuesMasked(MaskConstraintValues(s))
    decreases |s|
  {
    if s != "" {
      if s[0] == '=' && |s| > 1 && s[1] == '(' && FindClose(s, 2) < |s| {
        var rest := s[FindClose(s, 2) + 1..];
        MaskConstraintValuesMasks(rest);
        MaskedPrefix(MaskConstraintValues(rest));
      } else {
        var rest := MaskConstraintValues(s[1..]);
        MaskConstraintValuesMasks(s[1..]);
        MaskKeepsCloses(s[1..]);
        if s[0] == '=' && rest != "" && rest[0] == '(' && ')' in rest[1..] {
          CloseFound(s);
        }
        MaskedCons(s[0], rest);
      }
    }
  }

  lemma CloseFound(s: string)
    requires |s| > 1 && s[1] == '(' && ')' in s[1..]
    ensures FindClose(s, 2) < |s|
  {
    var k :| 0 <= k < |s[1..]| && s[1..][k] == ')';
    assert s[k + 1] == ')';
  }

  /** On masked text the first pass changes nothing, so it is idempotent. */
  lemma {:induction false} MaskFixesMasked(s: string)
    requires ValuesMasked(s)
    ensures MaskConstraintValues(s) == s
    decreases |s|
  {
    if s != "" {
      if s[0] == '=' && |s| > 1 && s[1] == '(' && FindClose(s, 2) < |s| {
        var j := FindClose(s, 2);
        assert s[2..][j - 2] == ')';
        assert ClosedValueAt(s, 0) && s[0..] == s;
        assert s[2] == MASKED[2] && s[3] == MASKED[3];
        assert j == 3;
        MaskedSuffix(s, 4);
        MaskFixesMasked(s[4..]);
        assert s == MASKED + s[4..];
      } else {
        MaskedSuffix(s, 1);
        MaskFixesMasked(s[1..]);
      }
    }
  }

  lemma MaskedSuffix(s: string, n: nat)
    requires ValuesMasked(s) && n <= |s|
    ensures ValuesMasked(s[n..])
  {
    var r := s[n..];
    forall i: nat | ClosedValueAt(r, i) ensures MASKED <= r[i..] {
      assert r[i + 2..] == s[n + i + 2..];
      assert ClosedValueAt(s, n + i);
      assert r[i..] == s[n + i..];
    }
  }

  lemma MaskedStretch(s: string, n: nat)
    requires ValuesMasked(s) && n <= |s|
    ensures ValuesMasked(s[..n])
  {
    var r := s[..n];
    forall i: nat | ClosedValueAt(r, i) ensures MASKED <= r[i..] {
      var j :| 0 <= j < |r[i + 2..]| && r[i + 2..][j] == ')';
      assert s[i + 2..][j] == ')';
      assert ClosedValueAt(s, i);
      assert s[i..][2] == ELLIPSIS;
      assert j > 0;
      assert |r[i..]| >= 4 && r[i..][..4] == s[i..][..4];
    }
  }

  lemma {:induction false} QuotedKeepsCloses(s: string)
    ensures ')' in MaskQuotedLiterals(s) ==> ')' in s
    ensures MaskQuotedLiterals(s) != "" && MaskQuotedLiterals(s)[0] == '(' ==> s != "" && s[0] == '('
    decreases |s|
  {
    if s != "" {
      if IsQuote(s[0]) && QuoteEnd(s, s[0], 1).Some? {
        QuotedKeepsCloses(s[QuoteEnd(s, s[0], 1).value..]);
      } else {
        QuotedKeepsCloses(s[1..]);
        assert s == [s[0]] + s[1..];
      }
    }
  }

  predicate Unquoted(s: string) {
    forall i :: 0 <= i < |s| ==> s[i] != '\'' && s[i] != '"'
  }

  /** Text without quotes passes through unchanged. */
  lemma {:induction false} QuotedSkips(a: string, rest: string)
    requires Unquoted(a)
    ensures MaskQuotedLiterals(a + rest) == a + MaskQuotedLiterals(rest)
  {
    if a == "" {
      assert a + rest == rest;
    } else {
      assert (a + rest)[0] == a[0] && (a + rest)[1..] == a[1..] + rest;
      QuotedSkips(a[1..], rest);
    }
  }

  /** How many backslashes stand immediately before position n, not counting any before i. */
  function BackslashesBefore(s: string, i: nat, n: nat): nat
    requires n <= |s|
  {
    if n > i && s[n - 1] == '\\' then 1 + BackslashesBefore(s, i, n - 1) else 0
  }

  /** The body from i to n stays on one line. */
  predicate OnOneLine(s: string, i: nat, n: nat)
    requires n <= |s|
  {
    forall k :: i <= k < n ==> s[k] != '\n'
  }

  /** A quote on the line of i that no escape consumes when escapes are paired up from i on. */
  predicate FreeQuote(s: string, quote: char, i: nat, n: nat) {
    i <= n < |s| && s[n] == quote && OnOneLine(s, i, n) && BackslashesBefore(s, i, n) % 2 == 0
  }

  predicate LineQuote(s: string, quote: char, i: nat, n: nat) {
    i <= n < |s| && s[n] == quote && OnOneLine(s, i, n)
  }

  /** n is the first free quote; or there is none, and n is the last quote on the line. */
  ghost predicate Closes(s: string, quote: char, i: nat, n: nat) {
    || (FreeQuote(s, quote, i, n) && forall m :: i <= m < n ==> !FreeQuote(s, quote, i, m))
    || (LineQuote(s, quote, i, n)
        && (forall m :: i <= m < |s| ==> !FreeQuote(s, quote, i, m))
        && (forall m :: n < m < |s| ==> !LineQuote(s, quote, i, m)))
  }

  /** Skipping an escape pair, or a character that opens none, does not change which quotes are free. */
  lemma {:induction false} BackslashParity(s: string, i: nat, step: nat, n: nat)
    requires i + step <= n <= |s|
    requires (step == 1 && s[i] != '\\') || (step == 2 && s[i] == '\\')
    ensures BackslashesBefore(s, i, n) % 2 == BackslashesBefore(s, i + step, n) % 2
    decreases n
  {
    if n > i + step && s[n - 1] == '\\' {
      BackslashParity(s, i, step, n - 1);
    } else if step == 2 && n == i + 2 {
      assert BackslashesBefore(s, i, i) == 0 && BackslashesBefore(s, i, i + 1) == 1;
    }
  }

  lemma FreeQuoteSkips(s: string, quote: char, i: nat, step: nat, n: nat)
    requires i + step <= n && quote != '\\' && (forall k :: i <= k < i + step && k < |s| ==> s[k] != '\n')
    requires i < |s| && ((step == 1 && s[i] != '\\') || (step == 2 && s[i] == '\\'))
    ensures FreeQuote(s, quote, i, n) <==> FreeQuote(s, quote, i + step, n)
    ensures LineQuote(s, quote, i, n) <==> LineQuote(s, quote, i + step, n)
  {
    if n < |s| {
      BackslashParity(s, i, step, n);
      assert OnOneLine(s, i, n) <==> OnOneLine(s, i + step, n);
    }
  }

  /** What closes the body from i + step on closes it from i on, if no quote in between is free. */
  lemma ClosesSkips(s: string, quote: char, i: nat, step: nat, n: nat)
    requires Closes(s, quote, i + step, n) && quote != '\\'
    requires i < |s| && (forall k :: i <= k < i + step && k < |s| ==> s[k] != '\n')
    requires (step == 1 && s[i] != '\\' && s[i] != quote) || (step == 2 && s[i] == '\\')
    ensures Closes(s, quote, i, n)
  {
    forall m | i + step <= m
      ensures FreeQuote(s, quote, i, m) <==> FreeQuote(s, quote, i + step, m)
      ensures LineQuote(s, quote, i, m) <==> LineQuote(s, quote, i + step, m)
    {
      FreeQuoteSkips(s, quote, i, step, m);
    }
    forall m | i <= m < i + step ensures !FreeQuote(s, quote, i, m) {
      if m == i + 1 {
        assert BackslashesBefore(s, i, i) == 0;
      }
    }
  }

  ghost predicate EndsRight(s: string, quote: char, i: nat) {
    var end := QuoteEnd(s, quote, i);
    && (end.Some? ==> end.value > 0 && Closes(s, quote, i, end.value - 1))
    && (end.None? <==> forall n :: i <= n < |s| ==> !LineQuote(s, quote, i, n))
  }

  /**
   The body of a quoted literal ends at the first quote that no escape consumes; if the line holds
   none, the search backs off to its last quote; and it fails exactly if the line holds no quote.
   */
  lemma {:induction false} QuoteEndMeaning(s: string, quote: char, i: nat)
    requires IsQuote(quote)
    ensures EndsRight(s, quote, i)
    decreases |s| - i
  {
    if i < |s| {
      QuoteEndMeaning(s, quote, i + 1);
      if s[i] == '\n' {
        forall n | i <= n < |s| ensures !LineQuote(s, quote, i, n) {
        }
      } else if s[i] == quote {
        assert FreeQuote(s, quote, i, i) && LineQuote(s, quote, i, i);
        assert QuoteEnd(s, quote, i) == Some(i + 1);
      } else if s[i] == '\\' {
        if i + 1 < |s| {
          QuoteEndMeaning(s, quote, i + 2);
        }
        EscapeEndsRight(s, quote, i);
      } else {
        PlainEndsRight(s, quote, i);
      }
    }
  }

  lemma PlainEndsRight(s: string, quote: char, i: nat)
    requires IsQuote(quote) && i < |s| && s[i] != '\n' && s[i] != quote && s[i] != '\\'
    requires EndsRight(s, quote, i + 1)
    ensures EndsRight(s, quote, i)
  {
    var end := QuoteEnd(s, quote, i + 1);
    assert QuoteEnd(s, quote, i) == end;
    if end.Some? {
      ClosesSkips(s, quote, i, 1, end.value - 1);
      assert LineQuote(s, quote, i, end.value - 1);
    } else {
      forall n | i <= n < |s| ensures !LineQuote(s, quote, i, n) {
        if n > i {
          FreeQuoteSkips(s, quote, i, 1, n);
        }
      }
    }
  }

  lemma EscapeEndsRight(s: string, quote: char, i: nat)
    requires IsQuote(quote) && i < |s| && s[i] == '\\' && EndsRight(s, quote, i + 1)
    requires i + 1 < |s| ==> EndsRight(s, quote, i + 2)
    ensures EndsRight(s, quote, i)
  {
    if i + 1 == |s| || s[i + 1] == '\n' {
      forall n | i <= n < |s| ensures !LineQuote(s, quote, i, n) {
        assert n > i + 1 ==> !OnOneLine(s, i, n);
      }
    } else {
      var end := QuoteEnd(s, quote, i + 2);
      if end.Some? {
        ClosesSkips(s, quote, i, 2, end.value - 1);
        assert LineQuote(s, quote, i, end.value - 1);
      } else {
        BacksOff(s, quote, i);
      }
    }
  }

  /** Nothing closes the body behind an escape pair: only the escaped character itself can. */
  lemma BacksOff(s: string, quote: char, i: nat)
    requires IsQuote(quote) && i + 1 < |s| && s[i] == '\\' && s[i + 1] != '\n'
    requires EndsRight(s, quote, i + 1) && EndsRight(s, quote, i + 2) && QuoteEnd(s, quote, i + 2).None?
    ensures EndsRight(s, quote, i)
  {
    forall n | i + 2 <= n < |s| ensures !LineQuote(s, quote, i, n) && !LineQuote(s, quote, i + 1, n) {
      FreeQuoteSkips(s, quote, i, 2, n);
      assert OnOneLine(s, i + 1, n) ==> OnOneLine(s, i + 2, n);
    }
    assert BackslashesBefore(s, i, i) == 0 && BackslashesBefore(s, i, i + 1) == 1;
    if s[i + 1] == quote {
      assert QuoteEnd(s, quote, i + 1) == Some(i + 2);
      assert LineQuote(s, quote, i, i + 1);
      forall m | i <= m < |s| ensures !FreeQuote(s, quote, i, m) {
        assert m >= i + 2 ==> !LineQuote(s, quote, i, m);
      }
      assert Closes(s, quote, i, i + 1);
    } else {
      assert QuoteEnd(s, quote, i + 1).None?;
    }
  }

  /** The body that closes does so in one place only. */
  lemma ClosesOnce(s: string, quote: char, i: nat, m: nat, n: nat)
    requires Closes(s, quote, i, m) && Closes(s, quote, i, n)
    ensures m == n
  {
  }

  /**
   The first quote in a text opens a literal exactly if the same quote comes again on its line; then
   everything up to the one place that closes it is masked, and scanning resumes behind it.
   */
  lemma QuotedLiteralMasked(a: string, s: string)
    requires Unquoted(a) && s != "" && (s[0] == '\'' || s[0] == '"')
    ensures (forall n :: 1 <= n < |s| ==> !LineQuote(s, s[0], 1, n)) ==>
              MaskQuotedLiterals(a + s) == a + ([s[0]] + MaskQuotedLiterals(s[1..]))
    ensures (exists n :: 1 <= n < |s| && LineQuote(s, s[0], 1, n)) ==> exists n: nat :: Closes(s, s[0], 1, n)
    ensures forall n: nat :: Closes(s, s[0], 1, n) ==>
              n < |s| && MaskQuotedLiterals(a + s) == a + (QUOTED + MaskQuotedLiterals(s[n + 1..]))
  {
    QuotedSkips(a, s);
    QuoteEndMeaning(s, s[0], 1);
    var end := QuoteEnd(s, s[0], 1);
    if end.Some? {
      assert MaskQuotedLiterals(s) == QUOTED + MaskQuotedLiterals(s[end.value..]);
    }
    forall n: nat | Closes(s, s[0], 1, n)
      ensures n < |s| && MaskQuotedLiterals(a + s) == a + (QUOTED + MaskQuotedLiterals(s[n + 1..]))
    {
      assert LineQuote(s, s[0], 1, n);
      ClosesOnce(s, s[0], 1, n, end.value - 1);
    }
  }

  lemma QuotedKeepsMask(s: string)
    requires ValuesMasked(s) && |s| > 1 && s[0] == '=' && s[1] == '(' && ')' in s[1..]
    ensures MASKED <= [s[0]] + MaskQuotedLiterals(s[1..])
  {
    var k :| 0 <= k < |s[1..]| && s[1..][k] == ')';
    assert s[2..][k - 1] == ')';
    assert ClosedValueAt(s, 0) && s[0..] == s;
    var mask := MASKED[1..];
    assert s[1..] == mask + s[4..];
    QuotedSkips(mask, s[4..]);
  }

  /** The quote pass neither breaks a mask nor opens a new value. */
  lemma {:induction false} QuotedKeepsMasked(s: string)
    requires ValuesMasked(s)
    ensures ValuesMasked(MaskQuotedLiterals(s))
    decreases |s|
  {
    if s != "" {
      if IsQuote(s[0]) && QuoteEnd(s, s[0], 1).Some? {
        var e := QuoteEnd(s, s[0], 1).value;
        MaskedSuffix(s, e);
        QuotedKeepsMasked(s[e..]);
        var rest := MaskQuotedLiterals(s[e..]);
        MaskedCons('\'', rest);
        MaskedCons(ELLIPSIS, "'" + rest);
        MaskedCons('\'', [ELLIPSIS] + ("'" + rest));
        assert QUOTED + rest == "'" + ([ELLIPSIS] + ("'" + rest));
      } else {
        MaskedSuffix(s, 1);
        QuotedKeepsMasked(s[1..]);
        QuotedKeepsCloses(s[1..]);
        var rest := MaskQuotedLiterals(s[1..]);
        if s[0] == '=' && rest != "" && rest[0] == '(' && ')' in rest[1..] {
          QuotedKeepsMask(s);
        }
        MaskedCons(s[0], rest);
      }
    }
  }

  lemma {:induction false} StripLeftKeepsMasked(s: string)
    requires ValuesMasked(s)
    ensures ValuesMasked(StripLeft(s))
  {
    if s != "" && IsSpace(s[0]) {
      MaskedSuffix(s, 1);
      StripLeftKeepsMasked(s[1..]);
    }
  }

  lemma {:induction false} StripRightKeepsMasked(s: string)
    requires ValuesMasked(s)
    ensures ValuesMasked(StripRight(s))
  {
    if s != "" && IsSpace(s[|s| - 1]) {
      MaskedStretch(s, |s| - 1);
      StripRightKeepsMasked(s[..|s| - 1]);
    }
  }

  lemma PassesMask(message: string)
    ensures ValuesMasked(StripRight(StripLeft(MaskQuotedLiterals(MaskConstraintValues(message)))))
  {
    MaskConstraintValuesMasks(message);
    QuotedKeepsMasked(MaskConstraintValues(message));
    StripLeftKeepsMasked(MaskQuotedLiterals(MaskConstraintValues(message)));
    StripRightKeepsMasked(StripLeft(MaskQuotedLiterals(MaskConstraintValues(message))));
  }

  lemma CutKeepsMasked(s: string, n: nat)
    requires ValuesMasked(s)
    ensures ValuesMasked(UpTo(s, n)) && |UpTo(s, n)| <= n
  {
    var kept := UpTo(s, n);
    assert kept == s[..|kept|];
    MaskedStretch(s, |kept|);
  }

  /** What leaves the sanitiser is at most 200 characters long and has no unmasked closed "=(" in it. */
  lemma SanitizedIsMasked(message: string)
    ensures ValuesMasked(SanitizeErrorMessage(message))
    ensures |SanitizeErrorMessage(message)| <= 200
  {
    if message != "" {
      PassesMask(message);
      CutKeepsMasked(StripRight(StripLeft(MaskQuotedLiterals(MaskConstraintValues(message)))), 200);
    }
  }

  /** A short message with nothing to hide and no white space at its ends is left alone. */
  lemma SanitizeKeepsClean(message: string)
    requires ValuesMasked(message) && Unquoted(message) && |message| <= 200
    requires message != "" ==> !IsSpace(message[0]) && !IsSpace(message[|message| - 1])
    ensures SanitizeErrorMessage(message) == message
  {
    MaskFixesMasked(message);
    QuotedSkips(message, "");
    assert message + "" == message;
  }

  predicate NothingOpened(a: string) {
    |a| > 1 ==> !(a[0] == '=' && a[1] == '(') && NothingOpened(a[1..])
  }

  lemma {:induction false} MaskSkips(a: string, rest: string)
    requires NothingOpened(a) && (rest != "" ==> rest[0] != '(')
    ensures MaskConstraintValues(a + rest) == a + MaskConstraintValues(rest)
  {
    var s := a + rest;
    if a == "" {
      assert s == rest;
    } else {
      assert s[0] == a[0] && s[1..] == a[1..] + rest;
      assert |s| > 1 ==> s[1] == if |a| > 1 then a[1] else rest[0];
      MaskPasses(s);
      MaskSkips(a[1..], rest);
      Led(a, MaskConstraintValues(rest));
    }
  }

  lemma MaskPasses(s: string)
    requires s != "" && !(|s| > 1 && s[0] == '=' && s[1] == '(')
    ensures MaskConstraintValues(s) == [s[0]] + MaskConstraintValues(s[1..])
  {
  }

  lemma Led(a: string, rest: string)
    requires a != ""
    ensures [a[0]] + (a[1..] + rest) == a + rest
  {
  }

  lemma FirstClose(value: string, rest: string)
    requires ')' !in value
    ensures FindClose("=(" + value + ")" + rest, 2) == |value| + 2
  {
    var tail := "=(" + value + ")" + rest;
    assert tail[|value| + 2] == ')';
    forall k | 2 <= k < |value| + 2 ensures tail[k] != ')' {
      assert tail[k] == value[k - 2];
    }
  }

  /** The first closed value is masked up to its first ')' and scanning resumes behind it. */
  lemma ConstraintValueMasked(a: string, value: string, rest: string)
    requires NothingOpened(a) && ')' !in value
    ensures MaskConstraintValues(a + ("=(" + value + ")" + rest)) == a + (MASKED + MaskConstraintValues(rest))
  {
    var tail := "=(" + value + ")" + rest;
    MaskSkips(a, tail);
    FirstClose(value, rest);
    assert tail[|value| + 3..] == rest;
  }

  predicate OpensClosed(s: string) {
    |s| > 1 && s[0] == '=' && s[1] == '(' && FindClose(s, 2) < |s|
  }

  /** What the first step of the scan emits. */
  function FirstEmitted(s: string): (r: string)
    requires s != ""
    ensures r != ""
  {
    if OpensClosed(s) then MASKED else [s[0]]
  }

  /** What the first step of the scan leaves to be scanned. */
  function FirstLeft(s: string): (r: string)
    requires s != ""
    ensures |r| < |s| && r == s[|s| - |r|..]
  {
    if OpensClosed(s) then s[FindClose(s, 2) + 1..] else s[1..]
  }

  lemma MaskUnfolds(s: string)
    requires s != ""
    ensures MaskConstraintValues(s) == FirstEmitted(s) + MaskConstraintValues(FirstLeft(s))
  {
  }

  lemma OpensAgrees(t: string, rest: string)
    requires t != "" && t[|t| - 1] == ')'
    ensures OpensClosed(t + rest) == OpensClosed(t)
    ensures OpensClosed(t) ==> FindClose(t + rest, 2) == FindClose(t, 2)
  {
    if |t| > 1 && t[1] == '(' {
      assert |t| > 2;
      CloseAgrees(t, rest, 2);
    }
  }

  lemma FirstStepAgrees(t: string, rest: string)
    requires t != "" && t[|t| - 1] == ')'
    ensures FirstEmitted(t + rest) == FirstEmitted(t)
    ensures FirstLeft(t + rest) == FirstLeft(t) + rest
  {
    OpensAgrees(t, rest);
    var n := if OpensClosed(t) then FindClose(t, 2) + 1 else 1;
    assert (t + rest)[n..] == t[n..] + rest;
  }

  lemma {:induction false} CloseAgrees(t: string, rest: string, i: nat)
    requires i < |t| && t[|t| - 1] == ')'
    ensures FindClose(t + rest, i) == FindClose(t, i) < |t|
    decreases |t| - i
  {
    if t[i] != ')' {
      CloseAgrees(t, rest, i + 1);
    }
  }

  lemma Reassociated(whole: string, part: string, head: string, x: string, y: string)
    requires part == head + x && whole == head + (x + y) && head != ""
    ensures whole == part + y && part != ""
  {
  }

  /** A ')' separates what is scanned before it from what is scanned after it. */
  lemma {:induction false} MaskSplits(t: string, rest: string)
    requires t != "" && t[|t| - 1] == ')'
    ensures MaskConstraintValues(t + rest) == MaskConstraintValues(t) + MaskConstraintValues(rest)
    ensures MaskConstraintValues(t) != ""
    decreases |t|
  {
    MaskUnfolds(t);
    MaskUnfolds(t + rest);
    FirstStepAgrees(t, rest);
    var tail, masked := FirstLeft(t), MaskConstraintValues(rest);
    if tail != "" {
      MaskSplits(tail, rest);
    } else {
      assert tail + rest == rest && "" + masked == masked;
    }
    Reassociated(MaskConstraintValues(t + rest), MaskConstraintValues(t), FirstEmitted(t),
                 MaskConstraintValues(tail), masked);
  }

  /** A value is hidden as a whole exactly if it holds no ')' itself; otherwise its tail stays. */
  lemma ValueHiddenIff(a: string, value: string, rest: string)
    requires NothingOpened(a)
    ensures MaskConstraintValues(a + ("=(" + value + ")" + rest)) == a + (MASKED + MaskConstraintValues(rest))
            <==> ')' !in value
  {
    if ')' !in value {
      ConstraintValueMasked(a, value, rest);
    } else {
      var k := FirstOf(value, 0);
      var head, tail := value[..k], value[k + 1..];
      assert value == head + [')'] + tail;
      var after := tail + ")" + rest;
      assert "=(" + value + ")" + rest == "=(" + head + ")" + after;
      ConstraintValueMasked(a, head, after);
      MaskSplits(tail + ")", rest);
      assert |MaskConstraintValues(after)| > |MaskConstraintValues(rest)|;
    }
  }

  function FirstOf(s: string, i: nat): (k: nat)
    requires i <= |s| && ')' in s[i..]
    ensures i <= k < |s| && s[k] == ')' && ')' !in s[i..k]
    decreases |s| - i
  {
    if s[i] == ')' then i
    else
      assert s[i..] == [s[i]] + s[i + 1..];
      var k := FirstOf(s, i + 1);
      assert s[i..k] == [s[i]] + s[i + 1..k];
      k
  }

  /** The first pass alone is idempotent. */
  lemma MaskIdempotent(message: string)
    ensures MaskConstraintValues(MaskConstraintValues(message)) == MaskConstraintValues(message)
  {
    MaskConstraintValuesMasks(message);
    MaskFixesMasked(MaskConstraintValues(message));
  }

  // ---------------------------------------------------------------- what a sanitised message shows

  predicate AllSpace(s: string) {
    forall i :: 0 <= i < |s| ==> IsSpace(s[i])
  }

  /** What stands from i to j in the text has no white space at its ends, and there is nothing else around it. */
  predicate TrimmedAt(text: string, i: nat, j: nat) {
    && i <= j <= |text| && AllSpace(text[..i]) && AllSpace(text[j..])
    && (i < j ==> !IsSpace(text[i]) && !IsSpace(text[j - 1]))
  }

  /** `shown` is `text` without the white space at its ends, as far as 200 characters reach. */
  ghost predicate ShownOf(shown: string, text: string) {
    exists i: nat, j: nat :: TrimmedAt(text, i, j) && shown == text[i..if j - i <= 200 then j else i + 200]
  }

  lemma {:induction false} StripLeftMeaning(s: string)
    ensures AllSpace(s[..|s| - |StripLeft(s)|])
    ensures StripLeft(s) != "" ==> !IsSpace(StripLeft(s)[0])
  {
    if s != "" && IsSpace(s[0]) {
      StripLeftMeaning(s[1..]);
      var n := |s| - |StripLeft(s)|;
      assert s[..n] == [s[0]] + s[1..][..n - 1];
    }
  }

  lemma {:induction false} StripRightMeaning(s: string)
    ensures AllSpace(s[|StripRight(s)|..])
    ensures StripRight(s) != "" ==> !IsSpace(StripRight(s)[|StripRight(s)| - 1])
  {
    if s != "" && IsSpace(s[|s| - 1]) {
      var front := s[..|s| - 1];
      StripRightMeaning(front);
      assert s[|StripRight(s)|..] == front[|StripRight(s)|..] + [s[|s| - 1]];
    }
  }

  lemma Stretch(text: string, tail: string, core: string, i: nat)
    requires i <= |text| && tail == text[i..] && core <= tail
    ensures core == text[i..i + |core|] && tail[|core|..] == text[i + |core|..]
    ensures core != "" ==> text[i] == tail[0] && text[i + |core| - 1] == core[|core| - 1]
  {
  }

  lemma IsTrimmed(text: string, i: nat, j: nat, left: string, right: string, first: char, last: char)
    requires i <= j <= |text| && left == text[..i] && right == text[j..] && AllSpace(left) && AllSpace(right)
    requires i < j ==> text[i] == first && text[j - 1] == last && !IsSpace(first) && !IsSpace(last)
    ensures TrimmedAt(text, i, j)
  {
  }

  lemma TrimmedFrom(text: string, tail: string, core: string, i: nat)
    requires i <= |text| && tail == text[i..] && core <= tail
    requires AllSpace(text[..i]) && AllSpace(tail[|core|..])
    requires core != "" ==> !IsSpace(tail[0]) && !IsSpace(core[|core| - 1])
    ensures TrimmedAt(text, i, i + |core|) && core == text[i..i + |core|]
  {
    Stretch(text, tail, core, i);
    if core == "" {
      IsTrimmed(text, i, i, text[..i], tail[0..], ' ', ' ');
    } else {
      IsTrimmed(text, i, i + |core|, text[..i], tail[|core|..], tail[0], core[|core| - 1]);
    }
  }

  lemma StripRightTrims(text: string, tail: string, i: nat) returns (j: nat)
    requires i <= |text| && tail == text[i..] && AllSpace(text[..i]) && (tail != "" ==> !IsSpace(tail[0]))
    ensures TrimmedAt(text, i, j) && StripRight(tail) == text[i..j]
  {
    var core := StripRight(tail);
    StripRightMeaning(tail);
    TrimmedFrom(text, tail, core, i);
    j := i + |core|;
  }

  lemma CutShows(text: string)
    ensures ShownOf(UpTo(StripRight(StripLeft(text)), 200), text)
  {
    StripLeftMeaning(text);
    var i := |text| - |StripLeft(text)|;
    var j := StripRightTrims(text, StripLeft(text), i);
    CutStretch(text, i, j);
  }

  lemma CutStretch(text: string, i: nat, j: nat)
    requires i <= j <= |text|
    ensures UpTo(text[i..j], 200) == text[i..if j - i <= 200 then j else i + 200]
  {
  }

  /** The sanitised message is what both passes leave, without white space at its ends, cut to 200 characters. */
  lemma SanitizedShows(message: string)
    ensures ShownOf(SanitizeErrorMessage(message), MaskQuotedLiterals(MaskConstraintValues(message)))
  {
    var text := MaskQuotedLiterals(MaskConstraintValues(message));
    CutShows(text);
    if message == "" {
      assert text == "" && StripLeft("") == "" && StripRight("") == "";
    }
  }

  predicate StartsQuoted(s: string) {
    s != "" && (s[0] == '\'' || s[0] == '"')
  }

  lemma ShowsText(message: string, text: string)
    requires MaskQuotedLiterals(MaskConstraintValues(message)) == text
    ensures ShownOf(SanitizeErrorMessage(message), text)
  {
    SanitizedShows(message);
  }

  /** What the masks look like. */
  lemma MasksSpelt()
    ensures MASKED == "=(\U{2026})" && QUOTED == "'\U{2026}'"
  {
  }

  function Valued(value: string): string {
    "=(" + value + ")"
  }

  lemma QuotedMasked(a: string, s: string, n: nat)
    requires Unquoted(a) && StartsQuoted(s) && Closes(s, s[0], 1, n)
    ensures n < |s| && MaskQuotedLiterals(a + s) == a + (QUOTED + MaskQuotedLiterals(s[n + 1..]))
  {
    QuotedLiteralMasked(a, s);
  }

  /** A quoted literal in a message without closed values: three characters stand in its place. */
  lemma QuotedIsHidden(a: string, s: string, n: nat)
    requires ValuesMasked(a + s) && Unquoted(a) && StartsQuoted(s) && Closes(s, s[0], 1, n)
    ensures n < |s| && ShownOf(SanitizeErrorMessage(a + s), a + (QUOTED + MaskQuotedLiterals(s[n + 1..])))
  {
    MaskFixesMasked(a + s);
    QuotedMasked(a, s, n);
    ShowsText(a + s, a + (QUOTED + MaskQuotedLiterals(s[n + 1..])));
  }

  lemma Joined(a: string, b: string, c: string, d: string)
    ensures a + (b + (c + d)) == (a + b + c) + d
  {
  }

  lemma ValueMasked(a: string, value: string, b: string, s: string)
    requires NothingOpened(a) && ')' !in value && ValuesMasked(b + s)
    ensures MaskConstraintValues(a + (Valued(value) + (b + s))) == a + MASKED + b + s
  {
    ConstraintValueMasked(a, value, b + s);
    MaskFixesMasked(b + s);
    Joined(a, MASKED, b, s);
  }

  lemma UnquotedConcat(a: string, b: string, c: string)
    requires Unquoted(a) && Unquoted(b) && Unquoted(c)
    ensures Unquoted(a + b + c)
  {
  }

  /** A closed value, then a quoted literal: neither is shown. */
  lemma ValueThenQuotedHidden(a: string, value: string, b: string, s: string, n: nat)
    requires NothingOpened(a) && ')' !in value && ValuesMasked(b + s)
    requires Unquoted(a) && Unquoted(b) && StartsQuoted(s) && Closes(s, s[0], 1, n)
    ensures n < |s|
    ensures ShownOf(SanitizeErrorMessage(a + (Valued(value) + (b + s))),
                    a + MASKED + b + (QUOTED + MaskQuotedLiterals(s[n + 1..])))
  {
    ValueMasked(a, value, b, s);
    UnquotedConcat(a, MASKED, b);
    QuotedMasked(a + MASKED + b, s, n);
    ShowsText(a + (Valued(value) + (b + s)), a + MASKED + b + (QUOTED + MaskQuotedLiterals(s[n + 1..])));
  }

  /** Which quote closes a literal first does not depend on what comes behind it. */
  lemma ClosesWithin(s: string, rest: string, quote: char)
    requires s != "" && FreeQuote(s, quote, 1, |s| - 1) && forall m :: 1 <= m < |s| - 1 ==> !FreeQuote(s, quote, 1, m)
    ensures Closes(s + rest, quote, 1, |s| - 1)
  {
    forall m: nat | 1 <= m < |s| ensures FreeQuote(s + rest, quote, 1, m) <==> FreeQuote(s, quote, 1, m) {
      BackslashesAgree(s, rest, m);
      assert OnOneLine(s + rest, 1, m) <==> OnOneLine(s, 1, m);
    }
  }

  lemma {:induction false} BackslashesAgree(s: string, rest: string, n: nat)
    requires n <= |s|
    ensures BackslashesBefore(s + rest, 1, n) == BackslashesBefore(s, 1, n)
  {
    if n > 1 && s[n - 1] == '\\' {
      BackslashesAgree(s, rest, n - 1);
    }
  }

  /** The literal s is masked on its own, whatever follows it. */
  lemma QuotedMaskedWithin(a: string, s: string, behind: string)
    requires Unquoted(a) && StartsQuoted(s) && FreeQuote(s, s[0], 1, |s| - 1)
    requires forall m :: 1 <= m < |s| - 1 ==> !FreeQuote(s, s[0], 1, m)
    ensures MaskQuotedLiterals(a + (s + behind)) == a + (QUOTED + MaskQuotedLiterals(behind))
  {
    ClosesWithin(s, behind, s[0]);
    QuotedMasked(a, s + behind, |s| - 1);
    assert (s + behind)[|s|..] == behind;
  }

  lemma ValueMaskedBehind(a: string, s: string, b: string, value: string, rest: string)
    requires NothingOpened(a + s + b) && ')' !in value
    ensures MaskConstraintValues(a + s + b + (Valued(value) + rest))
         == a + (s + (b + (MASKED + MaskConstraintValues(rest))))
  {
    ConstraintValueMasked(a + s + b, value, rest);
    Joined(a, s, b, MASKED + MaskConstraintValues(rest));
  }

  /** Between two literals or values the text is kept as it is. */
  lemma KeptBetween(b: string, mask: string, rest: string)
    requires Unquoted(b) && Unquoted(mask)
    ensures MaskQuotedLiterals(b + (mask + rest)) == b + (mask + MaskQuotedLiterals(rest))
  {
    QuotedSkips(mask, rest);
    QuotedSkips(b, mask + rest);
  }

  lemma QuotedThenValueMasked(a: string, s: string, b: string, value: string, rest: string)
    requires NothingOpened(a + s + b) && ')' !in value && Unquoted(a) && Unquoted(b)
    requires StartsQuoted(s) && FreeQuote(s, s[0], 1, |s| - 1)
    requires forall m :: 1 <= m < |s| - 1 ==> !FreeQuote(s, s[0], 1, m)
    ensures MaskQuotedLiterals(MaskConstraintValues(a + s + b + (Valued(value) + rest)))
         == a + (QUOTED + (b + (MASKED + MaskQuotedLiterals(MaskConstraintValues(rest)))))
  {
    var masked := MaskConstraintValues(rest);
    ValueMaskedBehind(a, s, b, value, rest);
    QuotedMaskedWithin(a, s, b + (MASKED + masked));
    KeptBetween(b, MASKED, masked);
  }

  /** A quoted literal, then a closed value: neither is shown. */
  lemma QuotedThenValueHidden(a: string, s: string, b: string, value: string, rest: string)
    requires NothingOpened(a + s + b) && ')' !in value && Unquoted(a) && Unquoted(b)
    requires StartsQuoted(s) && FreeQuote(s, s[0], 1, |s| - 1)
    requires forall m :: 1 <= m < |s| - 1 ==> !FreeQuote(s, s[0], 1, m)
    ensures ShownOf(SanitizeErrorMessage(a + s + b + (Valued(value) + rest)),
                    a + (QUOTED + (b + (MASKED + MaskQuotedLiterals(MaskConstraintValues(rest))))))
  {
    QuotedThenValueMasked(a, s, b, value, rest);
    SanitizedShows(a + s + b + (Valued(value) + rest));
  }
}
