/** Payloads as JSON text: what `json.dumps` writes and what `JSON.parse` makes of it. */
module Json {
  import opened Basics
  import opened Numbers
  import opened ObservabilityEntries

  // ---------------------------------------------------------------- writing

  function HexDigit(n: nat): (c: char)
    requires n < 16
    ensures '0' <= c <= 'f'
  {
    "0123456789abcdef"[n]
  }

  /** The last `width` hexadecimal digits of n. */
  function HexText(n: nat, width: nat): (r: string)
    ensures |r| == width
  {
    if width == 0 then "" else HexText(n / 16, width - 1) + [HexDigit(n % 16)]
  }

  function Unicode(n: nat): string {
    "\\u" + HexText(n, 4)
  }

  function UnicodePair(high: nat, low: nat): string {
    Unicode(high) + Unicode(low)
  }

  function SurrogatePair(n: nat): string {
    UnicodePair(0xd800 + n / 0x400, 0xdc00 + n % 0x400)
  }

  /** The letter that stands for a character behind a backslash, if there is one. */
  function EscapeLetter(c: char): Option<char> {
    match c
    case '"' => Some('"')
    case '\\' => Some('\\')
    case '\n' => Some('n')
    case '\r' => Some('r')
    case '\t' => Some('t')
    case '\U{08}' => Some('b')
    case '\U{0c}' => Some('f')
    case _ => None
  }

  /** One character of a JSON string; everything outside printable ASCII is escaped. */
  function Escaped(c: char): string {
    if EscapeLetter(c).Some? then ['\\', EscapeLetter(c).value]
    else if ' ' <= c <= '~' then [c]
    else if c as int < 0x10000 then Unicode(c as int)
    else SurrogatePair(c as int - 0x10000)
  }

  function EscapedAll(s: string): string {
    if s == "" then "" else Escaped(s[0]) + EscapedAll(s[1..])
  }

  function Quoted(s: string): string {
    "\"" + EscapedAll(s) + "\""
  }

  function Dumps(v: Value): string
    decreases v, 1
  {
    match v
    case Str(s) => Quoted(s)
    case Num(x) => NumberText(x)
    case Bool(b) => if b then "true" else "false"
    case Nil => "null"
    case NotANumber => "NaN"
    case Infinite(negative) => if negative then "-Infinity" else "Infinity"
    case Arr(items) => "[" + DumpsItems(v, items) + "]"
  }

  function DumpsItems(v: Value, items: seq<Value>): string
    requires forall i :: 0 <= i < |items| ==> items[i] < v
    decreases v, 0, |items|
  {
    if items == [] then ""
    else if |items| == 1 then Dumps(items[0])
    else Dumps(items[0]) + ", " + DumpsItems(v, items[1..])
  }

  function DumpsFields(p: Payload): string {
    if p == [] then ""
    else
      var field := Quoted(p[0].0) + ": " + Dumps(p[0].1);
      if |p| == 1 then field else field + ", " + DumpsFields(p[1..])
  }

  function DumpsPayload(p: Payload): string {
    "{" + DumpsFields(p) + "}"
  }

  /** The entry as the stream writes it. */
  function EntryText(e: ObservabilityEntry): string {
    DumpsPayload(ToJsonPayload(e, true))
  }

  // ---------------------------------------------------------------- no line breaks

  predicate NoBreaks(s: string) {
    forall i :: 0 <= i < |s| ==> s[i] != '\n' && s[i] != '\r'
  }

  lemma NoBreaksConcat(a: string, b: string)
    requires NoBreaks(a) && NoBreaks(b)
    ensures NoBreaks(a + b)
  {
  }

  lemma {:induction false} HexHasNoBreaks(n: nat, width: nat)
    ensures NoBreaks(HexText(n, width))
  {
    if width > 0 {
      HexHasNoBreaks(n / 16, width - 1);
    }
  }

  lemma UnicodeHasNoBreaks(n: nat)
    ensures NoBreaks(Unicode(n))
  {
    HexHasNoBreaks(n, 4);
  }

  lemma SurrogatesHaveNoBreaks(n: nat)
    ensures NoBreaks(SurrogatePair(n))
  {
    UnicodeHasNoBreaks(0xd800 + n / 0x400);
    UnicodeHasNoBreaks(0xdc00 + n % 0x400);
  }

  lemma EscapeHasNoBreaks(c: char)
    ensures NoBreaks(Escaped(c))
  {
    if c as int < 0x10000 {
      UnicodeHasNoBreaks(c as int);
    } else {
      SurrogatesHaveNoBreaks(c as int - 0x10000);
    }
  }

  lemma {:induction false} EscapedHasNoBreaks(s: string)
    ensures NoBreaks(EscapedAll(s))
  {
    if s != "" {
      EscapeHasNoBreaks(s[0]);
      EscapedHasNoBreaks(s[1..]);
      NoBreaksConcat(Escaped(s[0]), EscapedAll(s[1..]));
    }
  }

  lemma QuotedHasNoBreaks(s: string)
    ensures NoBreaks(Quoted(s))
  {
    EscapedHasNoBreaks(s);
    NoBreaksConcat("\"", EscapedAll(s));
    NoBreaksConcat("\"" + EscapedAll(s), "\"");
  }

  lemma DigitsHaveNoBreaks(s: string)
    requires AllDigits(s)
    ensures NoBreaks(s)
  {
  }

  lemma LayoutHasNoBreaks(l: Layout)
    requires WellFormed(l)
    ensures NoBreaks(LayoutText(l))
  {
    DigitsHaveNoBreaks(l.whole);
    DigitsHaveNoBreaks(l.fraction);
    if l.exponent.Some? {
      TwoDigitsBack(Magnitude(l.exponent.value));
      DigitsHaveNoBreaks(TwoDigits(Magnitude(l.exponent.value)));
    }
    NoBreaksConcat(".", l.fraction);
    NoBreaksConcat(FractionText(l.fraction), ExponentText(l.exponent));
    NoBreaksConcat(l.whole, FractionText(l.fraction) + ExponentText(l.exponent));
  }

  lemma NumberHasNoBreaks(x: Number)
    ensures NoBreaks(NumberText(x))
  {
    match x
    case Int(n) =>
      DecimalDigits(Magnitude(n));
      NoBreaksConcat("-", Decimal(Magnitude(n)));
    case Float(f) =>
      var l := LayoutOf(Decimal(f.digits), |Decimal(f.digits)| + f.exponent);
      LayoutMeans(f, Decimal(f.digits));
      LayoutHasNoBreaks(l);
      NoBreaksConcat("-", LayoutText(l));
  }

  lemma {:induction false} DumpsHasNoBreaks(v: Value)
    ensures NoBreaks(Dumps(v))
    decreases v, 1
  {
    match v
    case Str(s) => QuotedHasNoBreaks(s);
    case Num(x) => NumberHasNoBreaks(x);
    case Arr(items) => ItemsHaveNoBreaks(v, items);
    case _ =>
  }

  lemma {:induction false} ItemsHaveNoBreaks(v: Value, items: seq<Value>)
    requires forall i :: 0 <= i < |items| ==> items[i] < v
    ensures NoBreaks(DumpsItems(v, items))
    decreases v, 0, |items|
  {
    if items != [] {
      DumpsHasNoBreaks(items[0]);
      if |items| > 1 {
        ItemsHaveNoBreaks(v, items[1..]);
      }
    }
  }

  lemma {:induction false} FieldsHaveNoBreaks(p: Payload)
    ensures NoBreaks(DumpsFields(p))
  {
    if p != [] {
      QuotedHasNoBreaks(p[0].0);
      DumpsHasNoBreaks(p[0].1);
      if |p| > 1 {
        FieldsHaveNoBreaks(p[1..]);
      }
    }
  }

  lemma PayloadTextHasNoBreaks(p: Payload)
    ensures DumpsPayload(p) != "" && NoBreaks(DumpsPayload(p))
  {
    FieldsHaveNoBreaks(p);
  }
}
