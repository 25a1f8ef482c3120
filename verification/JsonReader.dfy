/**
 Reading JSON text back, as far as entries need it: one object whose values are strings, numbers,
 booleans, null, and arrays of these. Text outside the grammar of RFC 8259 is refused, as `JSON.parse`
 refuses it; NaN and Infinity are outside. Integers and floats are kept apart, which a browser does not.
 */
module JsonReader {
  import opened Basics
  import opened Numbers
  import opened ObservabilityEntries
  import opened Json

  // ---------------------------------------------------------------- the reader

  /** A value and the text behind it. */
  type Reading<T> = Option<(T, string)>

  function SkipSpace(s: string): (r: string)
    ensures |r| <= |s|
  {
    if s != "" && s[0] in " \t\n\r" then SkipSpace(s[1..]) else s
  }

  lemma {:induction false} SkipsSpace(space: string, s: string)
    requires forall i :: 0 <= i < |space| ==> space[i] in {' ', '\t', '\n', '\r'}
    requires s != "" ==> s[0] !in {' ', '\t', '\n', '\r'}
    ensures SkipSpace(space + s) == s
  {
    if space == "" {
      assert space + s == s;
    } else {
      assert (space + s)[0] == space[0] && (space + s)[1..] == space[1..] + s;
      SkipsSpace(space[1..], s);
    }
  }

  function HexValue(c: char): (r: Option<nat>)
    ensures r.Some? ==> r.value < 16
  {
    if '0' <= c <= '9' then Some(c as int - '0' as int)
    else if 'a' <= c <= 'f' then Some(c as int - 'a' as int + 10)
    else if 'A' <= c <= 'F' then Some(c as int - 'A' as int + 10)
    else None
  }

  /** Hexadecimal digits mean the same in small and in capital letters. */
  lemma HexInBothCases(n: nat)
    requires n < 16
    ensures HexValue("0123456789abcdef"[n]) == HexValue("0123456789ABCDEF"[n]) == Some(n)
  {
  }

  /** Four hexadecimal digits. */
  function ReadHex(s: string): (r: Option<nat>)
    ensures r.Some? ==> |s| >= 4 && r.value < 0x10000
  {
    if |s| < 4 then None
    else
      var a, b, c, d := HexValue(s[0]), HexValue(s[1]), HexValue(s[2]), HexValue(s[3]);
      if a.None? || b.None? || c.None? || d.None? then None
      else Some(Combined(a.value, b.value, c.value, d.value))
  }

  function Combined(a: nat, b: nat, c: nat, d: nat): (r: nat)
    requires a < 16 && b < 16 && c < 16 && d < 16
    ensures r < 0x10000
  {
    a * 4096 + b * 256 + c * 16 + d
  }

  /** What follows `\u`: one code unit, or a surrogate pair. */
  function ReadUnicode(s: string): Reading<char> {
    var high := ReadHex(s);
    if high.None? then None
    else if !(0xd800 <= high.value < 0xe000) then Some((high.value as char, s[4..]))
    else if high.value >= 0xdc00 || !("\\u" <= s[4..]) then None
    else
      var low := ReadHex(s[6..]);
      if low.None? || !(0xdc00 <= low.value < 0xe000) then None
      else Some((PairChar(high.value, low.value), s[10..]))
  }

  function PairChar(high: nat, low: nat): char
    requires 0xd800 <= high < 0xdc00 && 0xdc00 <= low < 0xe000
  {
    (0x10000 + (high - 0xd800) * 0x400 + (low - 0xdc00)) as char
  }

  /** What a backslash makes of the letter behind it. */
  function Unescaped(letter: char): Option<char> {
    match letter
    case '"' => Some('"')
    case '\\' => Some('\\')
    case '/' => Some('/')
    case 'n' => Some('\n')
    case 'r' => Some('\r')
    case 't' => Some('\t')
    case 'b' => Some('\U{08}')
    case 'f' => Some('\U{0c}')
    case _ => None
  }

  /** One character of a string, possibly escaped. */
  function ReadChar(s: string): (r: Reading<char>)
    ensures r.Some? ==> |r.value.1| < |s|
  {
    if s == "" || s[0] == '"' || s[0] < ' ' then None
    else if s[0] != '\\' then Some((s[0], s[1..]))
    else if |s| < 2 then None
    else if s[1] == 'u' then ReadUnicode(s[2..])
    else if Unescaped(s[1]).None? then None
    else Some((Unescaped(s[1]).value, s[2..]))
  }

  /** The characters up to the closing quote. */
  function ReadChars(s: string): (r: Reading<string>)
    ensures r.Some? ==> |r.value.1| < |s|
    decreases |s|
  {
    if s != "" && s[0] == '"' then Some(("", s[1..]))
    else if ReadChar(s).None? then None
    else
      var rest := ReadChars(ReadChar(s).value.1);
      if rest.None? then None else Some(([ReadChar(s).value.0] + rest.value.0, rest.value.1))
  }

  function ReadValue(s: string): (r: Reading<Value>)
    ensures r.Some? ==> |r.value.1| < |s|
    decreases |s|, 0
  {
    if s == "" then None
    else if s[0] == '"' then
      var text := ReadChars(s[1..]);
      if text.None? then None else Some((Str(text.value.0), text.value.1))
    else if s[0] == '[' then
      var inner := SkipSpace(s[1..]);
      if inner != "" && inner[0] == ']' then Some((Arr([]), inner[1..]))
      else
        var items := ReadItems(inner);
        if items.None? then None else Some((Arr(items.value.0), items.value.1))
    else if "true" <= s then Some((Bool(true), s[4..]))
    else if "false" <= s then Some((Bool(false), s[5..]))
    else if "null" <= s then Some((Nil, s[4..]))
    else
      var number := ReadNumber(s);
      if number.None? then None else Some((Num(number.value.0), number.value.1))
  }

  /** At least one value, separated by commas, up to the closing bracket. */
  function ReadItems(s: string): (r: Reading<seq<Value>>)
    ensures r.Some? ==> |r.value.1| < |s|
    decreases |s|, 1
  {
    var first := ReadValue(s);
    if first.None? then None
    else
      var next := SkipSpace(first.value.1);
      if next == "" then None
      else if next[0] == ']' then Some(([first.value.0], next[1..]))
      else if next[0] != ',' then None
      else
        var more := ReadItems(SkipSpace(next[1..]));
        if more.None? then None else Some(([first.value.0] + more.value.0, more.value.1))
  }

  /** One key with its value. */
  function ReadField(s: string): (r: Reading<(string, Value)>)
    ensures r.Some? ==> |r.value.1| < |s|
  {
    if s == "" || s[0] != '"' || ReadChars(s[1..]).None? then None
    else
      var key := ReadChars(s[1..]).value;
      var colon := SkipSpace(key.1);
      if colon == "" || colon[0] != ':' then None
      else
        var value := ReadValue(SkipSpace(colon[1..]));
        if value.None? then None else Some(((key.0, value.value.0), value.value.1))
  }

  function ReadFields(s: string): Reading<Payload>
    decreases |s|
  {
    var first := ReadField(s);
    if first.None? then None
    else
      var next := SkipSpace(first.value.1);
      if next == "" then None
      else if next[0] == '}' then Some(([first.value.0], next[1..]))
      else if next[0] != ',' then None
      else
        var more := ReadFields(SkipSpace(next[1..]));
        if more.None? then None else Some(([first.value.0] + more.value.0, more.value.1))
  }

  /** `JSON.parse`, for a text that holds one object. */
  function ParsePayload(text: string): Option<Payload> {
    var s := SkipSpace(text);
    if s == "" || s[0] != '{' then None
    else
      var inner := SkipSpace(s[1..]);
      var fields := if inner != "" && inner[0] == '}' then Some(([], inner[1..])) else ReadFields(inner);
      if fields.None? || SkipSpace(fields.value.1) != "" then None else Some(fields.value.0)
  }

  // ---------------------------------------------------------------- strings come back

  lemma HexBack(n: nat)
    requires n < 16
    ensures HexValue(HexDigit(n)) == Some(n)
  {
  }

  lemma HexDigits(n: nat)
    ensures HexText(n, 4) == [HexDigit(n / 16 / 16 / 16 % 16), HexDigit(n / 16 / 16 % 16), HexDigit(n / 16 % 16),
                              HexDigit(n % 16)]
  {
    var a, b, c := n / 16, n / 16 / 16, n / 16 / 16 / 16;
    assert HexText(c, 1) == HexText(c / 16, 0) + [HexDigit(c % 16)];
    assert HexText(b, 2) == HexText(c, 1) + [HexDigit(b % 16)];
    assert HexText(a, 3) == HexText(b, 2) + [HexDigit(a % 16)];
  }

  lemma HexesBack(n: nat, rest: string)
    requires n < 0x10000
    ensures ReadHex(HexText(n, 4) + rest) == Some(n)
  {
    HexDigits(n);
    HexBack(n / 16 / 16 / 16 % 16);
    HexBack(n / 16 / 16 % 16);
    HexBack(n / 16 % 16);
    HexBack(n % 16);
    DigitsBack(n);
  }

  lemma DigitsBack(n: nat)
    requires n < 0x10000
    ensures Combined(n / 16 / 16 / 16 % 16, n / 16 / 16 % 16, n / 16 % 16, n % 16) == n
  {
    var a, b, c := n / 16, n / 16 / 16, n / 16 / 16 / 16;
    assert c < 16;
    assert n == a * 16 + n % 16 && a == b * 16 + a % 16 && b == c * 16 + b % 16;
  }

  lemma PairCombined(n: nat)
    requires n < 0x100000
    ensures 0xd800 <= 0xd800 + n / 0x400 < 0xdc00 && 0xdc00 <= 0xdc00 + n % 0x400 < 0xe000
    ensures PairChar(0xd800 + n / 0x400, 0xdc00 + n % 0x400) == (0x10000 + n) as char
  {
    assert n == n / 0x400 * 0x400 + n % 0x400;
  }

  lemma PairSlices(a: string, b: string, rest: string)
    requires |a| == 4 && |b| == 4
    ensures var s := a + ("\\u" + b + rest);
            "\\u" <= s[4..] && s[6..] == b + rest && s[10..] == rest
  {
    var s := a + ("\\u" + b + rest);
    assert s[4..] == "\\u" + b + rest;
  }

  lemma PairText(a: string, b: string, rest: string)
    ensures var pair := ("\\u" + a) + ("\\u" + b);
            |pair| == |a| + |b| + 4 && pair[..2] == "\\u" && pair[2..] + rest == a + ("\\u" + b + rest)
  {
  }

  lemma PairBack(high: nat, low: nat, rest: string)
    requires 0xd800 <= high < 0xdc00 && 0xdc00 <= low < 0xe000
    ensures |UnicodePair(high, low)| > 2 && UnicodePair(high, low)[..2] == "\\u"
    ensures ReadUnicode(UnicodePair(high, low)[2..] + rest) == Some((PairChar(high, low), rest))
  {
    var a, b := HexText(high, 4), HexText(low, 4);
    HexesBack(high, "\\u" + b + rest);
    HexesBack(low, rest);
    PairSlices(a, b, rest);
    PairText(a, b, rest);
  }

  lemma ScalarBack(c: char, rest: string)
    requires c as int < 0x10000
    ensures Unicode(c as int)[..2] == "\\u"
    ensures ReadUnicode(Unicode(c as int)[2..] + rest) == Some((c, rest))
  {
    var s := Unicode(c as int)[2..] + rest;
    HexesBack(c as int, rest);
    assert s == HexText(c as int, 4) + rest;
    assert s[4..] == rest;
  }

  /** An escape that starts with `\u` is read by what follows. */
  lemma UnicodeRead(escape: string, rest: string)
    requires |escape| > 2 && escape[..2] == "\\u"
    ensures ReadChar(escape + rest) == ReadUnicode(escape[2..] + rest) && escape[0] != '"'
  {
    var s := escape + rest;
    assert s[0] == escape[..2][0] && s[1] == escape[..2][1];
    assert s[2..] == escape[2..] + rest;
  }

  lemma PairReadBack(high: nat, low: nat, rest: string)
    requires 0xd800 <= high < 0xdc00 && 0xdc00 <= low < 0xe000
    ensures ReadChar(UnicodePair(high, low) + rest) == Some((PairChar(high, low), rest))
    ensures UnicodePair(high, low) != "" && UnicodePair(high, low)[0] != '"'
  {
    PairBack(high, low, rest);
    UnicodeRead(UnicodePair(high, low), rest);
  }

  /** Beyond the first plane a character is written as the pair that stands for it. */
  lemma AstralEscape(c: char) returns (high: nat, low: nat)
    requires c as int >= 0x10000
    ensures 0xd800 <= high < 0xdc00 && 0xdc00 <= low < 0xe000
    ensures Escaped(c) == UnicodePair(high, low) && PairChar(high, low) == c
  {
    var n := c as int - 0x10000;
    PairCombined(n);
    high, low := 0xd800 + n / 0x400, 0xdc00 + n % 0x400;
  }

  lemma LetterBack(c: char)
    requires EscapeLetter(c).Some?
    ensures Unescaped(EscapeLetter(c).value) == Some(c) && EscapeLetter(c) != Some('u')
  {
  }

  lemma CharBack(c: char, rest: string)
    ensures ReadChar(Escaped(c) + rest) == Some((c, rest)) && Escaped(c) != "" && Escaped(c)[0] != '"'
  {
    if EscapeLetter(c).Some? {
      LetterBack(c);
      assert (Escaped(c) + rest)[2..] == rest;
    } else if ' ' <= c <= '~' {
      assert (Escaped(c) + rest)[1..] == rest;
    } else if c as int < 0x10000 {
      ScalarBack(c, rest);
      UnicodeRead(Unicode(c as int), rest);
    } else {
      var high, low := AstralEscape(c);
      PairReadBack(high, low, rest);
    }
  }

  lemma {:induction false} CharsBack(t: string, rest: string)
    ensures ReadChars(EscapedAll(t) + ("\"" + rest)) == Some((t, rest))
    decreases |t|
  {
    var s := EscapedAll(t) + ("\"" + rest);
    if t == "" {
      assert s[1..] == rest;
    } else {
      var tail := EscapedAll(t[1..]) + ("\"" + rest);
      assert s == Escaped(t[0]) + tail;
      CharBack(t[0], tail);
      CharsBack(t[1..], rest);
      assert s[0] == Escaped(t[0])[0];
      assert [t[0]] + t[1..] == t;
    }
  }

  lemma QuotedBack(t: string, rest: string)
    ensures |Quoted(t)| >= 2 && Quoted(t)[0] == '"'
    ensures ReadChars((Quoted(t) + rest)[1..]) == Some((t, rest))
  {
    assert (Quoted(t) + rest)[1..] == EscapedAll(t) + ("\"" + rest);
    CharsBack(t, rest);
  }

  // ---------------------------------------------------------------- values come back exactly if they are finite

  /** No float that JSON cannot express, at any depth. */
  predicate Finite(v: Value) {
    match v
    case NotANumber => false
    case Infinite(_) => false
    case Arr(items) => forall i :: 0 <= i < |items| ==> Finite(items[i])
    case _ => true
  }

  predicate AllFinite(items: seq<Value>) {
    forall i :: 0 <= i < |items| ==> Finite(items[i])
  }

  lemma NumberValueBack(x: Number, rest: string)
    requires EndsNumber(rest)
    ensures ReadValue(NumberText(x) + rest) == Some((Num(x), rest)) && Solid(NumberText(x))
  {
    NumberBack(x, rest);
    NumberStarts(x);
    var s := NumberText(x) + rest;
    assert s[0] == NumberText(x)[0];
    NoWord(s);
  }

  /** A number starts with none of the characters that start another value. */
  lemma NoWord(s: string)
    requires s != "" && (s[0] == '-' || IsDigit(s[0]))
    ensures s[0] != '"' && s[0] != '[' && !("true" <= s) && !("false" <= s) && !("null" <= s) && Solid(s)
  {
  }

  lemma WordBack(v: Value, rest: string)
    requires v.Bool? || v.Nil?
    ensures ReadValue(Dumps(v) + rest) == Some((v, rest))
  {
    var word := Dumps(v);
    assert word <= word + rest && (word + rest)[0] == word[0] && (word + rest)[|word|..] == rest;
    assert "true"[0] == 't' && "false"[0] == 'f' && "null"[0] == 'n';
  }

  lemma NonFiniteRefused(v: Value, rest: string)
    requires v.NotANumber? || v.Infinite?
    ensures ReadValue(Dumps(v) + rest) == None
  {
    var s := Dumps(v) + rest;
    assert s[0] == Dumps(v)[0];
    if v == Infinite(true) {
      assert s[1] == Dumps(v)[1] == 'I';
      assert LeadingDigits(s[1..]) == "";
    } else {
      assert LeadingDigits(s) == "";
    }
  }

  /** How a text that was written continues: it starts with no white space and with no closing bracket. */
  predicate Solid(s: string) {
    s != "" && s[0] !in " \t\n\r]"
  }

  lemma DumpsSolid(v: Value)
    ensures Solid(Dumps(v))
  {
    if v.Num? {
      NumberValueBack(v.number, "");
    }
  }

  lemma SolidStays(s: string, rest: string)
    requires Solid(s)
    ensures Solid(s + rest) && SkipSpace(s + rest) == s + rest
  {
    assert (s + rest)[0] == s[0];
  }

  /** What the reader makes of a value's text: the value, or nothing if some float in it is not finite. */
  ghost predicate ReadsRight(v: Value, rest: string) {
    ReadValue(Dumps(v) + rest) == if Finite(v) then Some((v, rest)) else None
  }

  lemma {:induction false} ValueBack(v: Value, rest: string)
    requires EndsNumber(rest)
    ensures ReadsRight(v, rest)
    decreases v, 1
  {
    match v
    case Str(t) =>
      QuotedBack(t, rest);
      assert (Quoted(t) + rest)[0] == '"';
    case Num(x) => NumberValueBack(x, rest);
    case Bool(_) => WordBack(v, rest);
    case Nil => WordBack(v, rest);
    case NotANumber => NonFiniteRefused(v, rest);
    case Infinite(_) => NonFiniteRefused(v, rest);
    case Arr(items) =>
      if items != [] {
        ItemsBack(v, items, rest);
      }
      ArrayBack(v, rest);
  }

  /** Reading an array whose first item is at hand. */
  lemma ArrayReadOn(inner: string)
    requires Solid(inner)
    ensures ReadValue("[" + inner) ==
            var items := ReadItems(inner);
            if items.None? then None else Some((Arr(items.value.0), items.value.1))
  {
    assert ("[" + inner)[1..] == inner;
  }

  lemma ArrayBack(v: Value, rest: string)
    requires v.Arr?
    requires v.items != [] ==>
               ReadItems(DumpsItems(v, v.items) + ("]" + rest))
               == if AllFinite(v.items) then Some((v.items, rest)) else None
    ensures ReadsRight(v, rest)
  {
    var inner := DumpsItems(v, v.items) + ("]" + rest);
    assert Dumps(v) + rest == "[" + inner;
    if v.items == [] {
      EmptyArrayBack(rest);
      assert inner == "]" + rest && v == Arr([]);
    } else {
      ItemsSolid(v, v.items);
      SolidStays(DumpsItems(v, v.items), "]" + rest);
      ArrayReadOn(inner);
      assert Finite(v) <==> AllFinite(v.items);
    }
  }

  lemma EmptyArrayBack(rest: string)
    ensures ReadValue("[" + ("]" + rest)) == Some((Arr([]), rest))
  {
    var s := "[" + ("]" + rest);
    assert s[1..] == "]" + rest && s[1..][1..] == rest;
  }

  lemma ItemsSolid(v: Value, items: seq<Value>)
    requires (forall i :: 0 <= i < |items| ==> items[i] < v) && items != []
    ensures Solid(DumpsItems(v, items))
  {
    DumpsSolid(items[0]);
  }

  lemma {:induction false} ItemsBack(v: Value, items: seq<Value>, rest: string)
    requires (forall i :: 0 <= i < |items| ==> items[i] < v) && items != []
    ensures ReadItems(DumpsItems(v, items) + ("]" + rest))
         == if AllFinite(items) then Some((items, rest)) else None
    decreases v, 0, |items|
  {
    if |items| == 1 {
      ValueBack(items[0], "]" + rest);
      LastItemBack(v, items, rest);
    } else {
      var more := items[1..];
      ValueBack(items[0], ", " + (DumpsItems(v, more) + ("]" + rest)));
      ItemsBack(v, more, rest);
      ItemsText(v, items, rest);
      var tail := DumpsItems(v, more) + ("]" + rest);
      ItemsCombine(Dumps(items[0]) + (", " + tail), items, tail, rest);
    }
  }

  lemma LastItemBack(v: Value, items: seq<Value>, rest: string)
    requires |items| == 1 && items[0] < v && ReadsRight(items[0], "]" + rest)
    ensures ReadItems(DumpsItems(v, items) + ("]" + rest))
         == if AllFinite(items) then Some((items, rest)) else None
  {
    assert AllFinite(items) <==> Finite(items[0]);
    assert SkipSpace("]" + rest) == "]" + rest && ("]" + rest)[1..] == rest;
    assert items == [items[0]];
  }

  lemma Regrouped(a: string, b: string, c: string, d: string)
    ensures (a + b + c) + d == a + (b + (c + d))
  {
  }

  /** Behind a comma comes one space, and then what was written next. */
  lemma CommaSkips(tail: string)
    requires Solid(tail)
    ensures var next := ", " + tail;
            next[0] == ',' && SkipSpace(next) == next && SkipSpace(next[1..]) == tail
  {
    assert (", " + tail)[1..] == " " + tail;
    SpaceSkipped(tail);
  }

  /** Reading on behind a comma. */
  lemma ItemsReadOn(s: string, first: Value, next: string, tail: string)
    requires ReadValue(s) == Some((first, next)) && next != "" && next[0] == ','
    requires SkipSpace(next) == next && SkipSpace(next[1..]) == tail
    ensures ReadItems(s) ==
            var more := ReadItems(tail);
            if more.None? then None else Some(([first] + more.value.0, more.value.1))
  {
  }

  /** The text of several items: the first one, a comma, and a solid rest. */
  lemma ItemsText(v: Value, items: seq<Value>, rest: string)
    requires (forall i :: 0 <= i < |items| ==> items[i] < v) && |items| > 1
    ensures var tail := DumpsItems(v, items[1..]) + ("]" + rest);
            Solid(tail) && DumpsItems(v, items) + ("]" + rest) == Dumps(items[0]) + (", " + tail)
  {
    ItemsSolid(v, items[1..]);
    SolidStays(DumpsItems(v, items[1..]), "]" + rest);
    Regrouped(Dumps(items[0]), ", ", DumpsItems(v, items[1..]), "]" + rest);
  }

  lemma ItemsCombine(s: string, items: seq<Value>, tail: string, rest: string)
    requires items != [] && Solid(tail)
    requires ReadValue(s) == if Finite(items[0]) then Some((items[0], ", " + tail)) else None
    requires ReadItems(tail) == if AllFinite(items[1..]) then Some((items[1..], rest)) else None
    ensures ReadItems(s) == if AllFinite(items) then Some((items, rest)) else None
  {
    assert items == [items[0]] + items[1..];
    FiniteCons(items);
    if Finite(items[0]) {
      CommaSkips(tail);
      ItemsReadOn(s, items[0], ", " + tail, tail);
    }
  }

  lemma FiniteCons(items: seq<Value>)
    requires items != []
    ensures AllFinite(items) <==> Finite(items[0]) && AllFinite(items[1..])
  {
    assert forall i :: 0 < i < |items| ==> items[i] == items[1..][i - 1];
  }

  lemma SpaceSkipped(tail: string)
    requires Solid(tail)
    ensures SkipSpace(" " + tail) == tail
  {
    assert (" " + tail)[1..] == tail;
  }

  // ---------------------------------------------------------------- payloads and entries

  predicate FinitePayload(p: Payload) {
    forall i :: 0 <= i < |p| ==> Finite(p[i].1)
  }

  function FieldText(field: (string, Value)): string {
    Quoted(field.0) + ": " + Dumps(field.1)
  }

  lemma ColonSkips(value: string)
    requires Solid(value)
    ensures var colon := ": " + value;
            colon[0] == ':' && SkipSpace(colon) == colon && SkipSpace(colon[1..]) == value
  {
    assert (": " + value)[1..] == " " + value;
    SpaceSkipped(value);
  }

  lemma ValueSolid(v: Value, rest: string)
    ensures Solid(Dumps(v) + rest)
  {
    DumpsSolid(v);
    SolidStays(Dumps(v), rest);
  }

  lemma FieldBack(field: (string, Value), rest: string)
    requires EndsNumber(rest)
    ensures FieldText(field) != "" && FieldText(field)[0] == '"'
    ensures ReadField(FieldText(field) + rest) == if Finite(field.1) then Some((field, rest)) else None
  {
    var value := Dumps(field.1) + rest;
    var behind := ": " + value;
    Regrouped(Quoted(field.0), ": ", Dumps(field.1), rest);
    QuotedBack(field.0, behind);
    ValueBack(field.1, rest);
    ValueSolid(field.1, rest);
    ColonSkips(value);
    FieldReadOn(Quoted(field.0) + behind, field.0, behind, value);
  }

  lemma FieldReadOn(s: string, key: string, colon: string, value: string)
    requires s != "" && s[0] == '"' && ReadChars(s[1..]) == Some((key, colon)) && colon != "" && colon[0] == ':'
    requires SkipSpace(colon) == colon && SkipSpace(colon[1..]) == value
    ensures ReadField(s) ==
            var v := ReadValue(value);
            if v.None? then None else Some(((key, v.value.0), v.value.1))
  {
  }

  /** The text of several fields: the first one, a comma, and the others. */
  lemma FieldsText(p: Payload)
    requires |p| > 1
    ensures DumpsFields(p) + "}" == FieldText(p[0]) + (", " + (DumpsFields(p[1..]) + "}"))
  {
    Regrouped(FieldText(p[0]), ", ", DumpsFields(p[1..]), "}");
    assert DumpsFields(p) == FieldText(p[0]) + ", " + DumpsFields(p[1..]);
  }

  lemma QuoteSolid(s: string)
    requires s != "" && s[0] == '"'
    ensures Solid(s)
  {
  }

  lemma {:induction false} FieldsRead(p: Payload)
    requires p != []
    ensures Solid(DumpsFields(p) + "}") && (DumpsFields(p) + "}")[0] == '"'
    ensures ReadFields(DumpsFields(p) + "}") == if FinitePayload(p) then Some((p, "")) else None
  {
    FiniteFields(p);
    var s := DumpsFields(p) + "}";
    if |p| == 1 {
      FieldBack(p[0], "}");
      assert s == FieldText(p[0]) + "}";
      LastFieldBack(s, p);
    } else {
      var tail := DumpsFields(p[1..]) + "}";
      FieldsRead(p[1..]);
      FieldBack(p[0], ", " + tail);
      FieldsText(p);
      FieldsReadOn(s, p, tail);
    }
    assert s[0] == FieldText(p[0])[0];
    QuoteSolid(s);
  }

  lemma FiniteFields(p: Payload)
    requires p != []
    ensures FinitePayload(p) <==> Finite(p[0].1) && FinitePayload(p[1..])
  {
    assert forall i :: 0 < i < |p| ==> p[i] == p[1..][i - 1];
  }

  lemma LastFieldBack(s: string, p: Payload)
    requires |p| == 1 && ReadField(s) == if Finite(p[0].1) then Some((p[0], "}")) else None
    ensures ReadFields(s) == if Finite(p[0].1) then Some((p, "")) else None
  {
    assert p == [p[0]] && "}"[1..] == "";
  }

  lemma FieldsReadOn(s: string, p: Payload, tail: string)
    requires |p| > 1 && Solid(tail)
    requires ReadField(s) == if Finite(p[0].1) then Some((p[0], ", " + tail)) else None
    requires ReadFields(tail) == if FinitePayload(p[1..]) then Some((p[1..], "")) else None
    ensures ReadFields(s) == if Finite(p[0].1) && FinitePayload(p[1..]) then Some((p, "")) else None
  {
    CommaSkips(tail);
    assert p == [p[0]] + p[1..];
  }

  /** `JSON.parse` undoes `json.dumps` if all floats in the payload are finite, and throws otherwise. */
  lemma PayloadBackIff(p: Payload)
    ensures ParsePayload(DumpsPayload(p)) == if FinitePayload(p) then Some(p) else None
  {
    var inner := DumpsFields(p) + "}";
    var text := DumpsPayload(p);
    assert text == "{" + inner && text[1..] == inner && SkipSpace(text) == text;
    if p == [] {
      assert inner == "}" && SkipSpace(inner) == inner && inner[1..] == "";
    } else {
      FieldsRead(p);
      assert SkipSpace(inner) == inner;
    }
  }

  /** No sampled cell is a float that JSON cannot express. */
  predicate Displayable(e: ObservabilityEntry) {
    e.rows.Some? ==> forall r :: 0 <= r < |e.rows.value| ==> AllFinite(e.rows.value[r])
  }

  predicate FiniteDictionary(d: Dictionary) {
    forall i :: 0 <= i < |d| && d[i].1.Some? ==> Finite(d[i].1.value)
  }

  lemma {:induction false} FinitePresent(d: Dictionary)
    ensures FinitePayload(Present(d)) <==> FiniteDictionary(d)
  {
    if d != [] {
      FinitePresent(d[1..]);
      assert forall i :: 0 < i < |d| ==> d[i] == d[1..][i - 1];
      FiniteDictionaryStep(d);
      if d[0].1.Some? {
        var p := [(d[0].0, d[0].1.value)] + Present(d[1..]);
        assert p[1..] == Present(d[1..]);
        FiniteFields(p);
      } else {
        assert [] + Present(d[1..]) == Present(d[1..]);
      }
    }
  }

  lemma FiniteDictionaryStep(d: Dictionary)
    requires d != []
    ensures FiniteDictionary(d) <==> (d[0].1.Some? ==> Finite(d[0].1.value)) && FiniteDictionary(d[1..])
  {
    assert forall i :: 0 < i < |d| ==> d[i] == d[1..][i - 1];
  }

  lemma StringsFinite(xs: seq<string>)
    ensures Finite(Strings(xs))
  {
  }

  lemma RowsFinite(rows: seq<seq<Value>>)
    ensures Finite(Rows(rows)) <==> forall r :: 0 <= r < |rows| ==> AllFinite(rows[r])
  {
    var v := Rows(rows);
    assert Finite(v) <==> forall r :: 0 <= r < |v.items| ==> Finite(v.items[r]);
    forall r | 0 <= r < |rows| ensures Finite(v.items[r]) <==> AllFinite(rows[r]) {
      assert v.items[r] == Arr(rows[r]);
    }
  }

  lemma DisplayableIff(e: ObservabilityEntry)
    ensures FiniteDictionary(AsDict(e)) <==> Displayable(e)
  {
    var d := AsDict(e);
    if e.columns.Some? {
      StringsFinite(e.columns.value);
    }
    if e.rows.Some? {
      RowsFinite(e.rows.value);
      assert d[11].1 == Some(Rows(e.rows.value));
    }
    assert forall i :: 0 <= i < 14 && i != 11 && d[i].1.Some? ==> Finite(d[i].1.value);
  }

  /** The entry as the page reads it; None when `JSON.parse` throws. */
  function ReadEntry(text: string): Option<ObservabilityEntry> {
    var p := ParsePayload(text);
    if p.None? then None else Some(FromPayload(p.value))
  }

  /** An entry arrives as it was recorded if all sampled cells are finite; otherwise its text is refused. */
  lemma EntryBackIff(e: ObservabilityEntry)
    ensures ReadEntry(EntryText(e)) == if Displayable(e) then Some(e) else None
  {
    PayloadBackIff(ToJsonPayload(e, true));
    FinitePresent(AsDict(e));
    DisplayableIff(e);
    PayloadRoundTrip(e);
  }
}
