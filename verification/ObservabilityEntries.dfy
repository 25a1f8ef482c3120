/** One record per served request, and its two serialisations. */
module ObservabilityEntries {
  import opened Basics
  import opened Numbers

  datatype Decision = ALLOWED | REJECTED | DB_ERROR

  /** What result cells are coerced to. A float may still be no number, or infinite. */
  datatype Value =
    | Str(s: string)
    | Num(number: Number)
    | NotANumber
    | Infinite(negative: bool)
    | Bool(b: bool)
    | Nil
    | Arr(items: seq<Value>)

  datatype ObservabilityEntry = ObservabilityEntry(
    requestId: string,
    decision: Decision,
    redactedQuery: string,
    rejectionCode: Option<string>,
    rejectionDetail: Option<string>,
    dbErrorMessage: Option<string>,
    dbErrorCode: Option<string>,
    durationMs: Option<FiniteFloat>,
    rowsAffected: Option<int>,
    rowsReturned: Option<int>,
    columns: Option<seq<string>>,
    rows: Option<seq<seq<Value>>>,
    rowsWereTruncated: Option<bool>,
    timestamp: string)

  /** A payload keeps the order in which its keys were inserted. */
  type Payload = seq<(string, Value)>

  function DecisionText(d: Decision): string {
    match d case ALLOWED => "allowed" case REJECTED => "rejected" case DB_ERROR => "db_error"
  }

  function Strings(xs: seq<string>): Value {
    Arr(seq(|xs|, i requires 0 <= i < |xs| => Str(xs[i])))
  }

  function Rows(rows: seq<seq<Value>>): Value {
    Arr(seq(|rows|, i requires 0 <= i < |rows| => Arr(rows[i])))
  }

  /** A dictionary of optional values, in insertion order. */
  type Dictionary = seq<(string, Option<Value>)>

  function Encoded<T>(value: Option<T>, encode: T -> Value): Option<Value> {
    if value.Some? then Some(encode(value.value)) else None
  }

  /** `asdict`: all fields in declaration order. */
  function AsDict(e: ObservabilityEntry): Dictionary {
    [("request_id", Some(Str(e.requestId))),
     ("decision", Some(Str(DecisionText(e.decision)))),
     ("redacted_query", Some(Str(e.redactedQuery))),
     ("rejection_code", Encoded(e.rejectionCode, s => Str(s))),
     ("rejection_detail", Encoded(e.rejectionDetail, s => Str(s))),
     ("db_error_message", Encoded(e.dbErrorMessage, s => Str(s))),
     ("db_error_code", Encoded(e.dbErrorCode, s => Str(s))),
     ("duration_ms", Encoded(e.durationMs, (x: FiniteFloat) => Num(Float(x)))),
     ("rows_affected", Encoded(e.rowsAffected, (n: int) => Num(Int(n)))),
     ("rows_returned", Encoded(e.rowsReturned, (n: int) => Num(Int(n)))),
     ("columns", Encoded(e.columns, c => Strings(c))),
     ("rows", Encoded(e.rows, r => Rows(r))),
     ("rows_were_truncated", Encoded(e.rowsWereTruncated, b => Bool(b))),
     ("timestamp", Some(Str(e.timestamp)))]
  }

  /** The items whose value is not None. */
  function Present(d: Dictionary): Payload {
    if d == [] then [] else (if d[0].1.Some? then [(d[0].0, d[0].1.value)] else []) + Present(d[1..])
  }

  /** `pop(key, None)` */
  function Popped(p: Payload, key: string): Payload {
    if p == [] then [] else (if p[0].0 == key then [] else [p[0]]) + Popped(p[1..], key)
  }

  function ToJsonPayload(e: ObservabilityEntry, includeResultData: bool): Payload {
    if includeResultData then Present(AsDict(e)) else Popped(Popped(Present(AsDict(e)), "rows"), "columns")
  }

  // ---------------------------------------------------------------- what the restricted view leaves out

  /** The entry with its result data removed. */
  function WithoutResultData(e: ObservabilityEntry): ObservabilityEntry {
    e.(columns := None, rows := None)
  }

  /** The dictionary with None under a key. */
  function Blanked(d: Dictionary, key: string): Dictionary {
    if d == [] then [] else [if d[0].0 == key then (key, None) else d[0]] + Blanked(d[1..], key)
  }

  /** Popping a key is the same as never having had it. */
  lemma {:induction false} PoppedPresent(d: Dictionary, key: string)
    ensures Popped(Present(d), key) == Present(Blanked(d, key))
  {
    if d != [] {
      var rest := Present(d[1..]);
      PoppedPresent(d[1..], key);
      assert Blanked(d, key)[1..] == Blanked(d[1..], key);
      if d[0].1.Some? {
        var p := [(d[0].0, d[0].1.value)] + rest;
        assert p[1..] == rest;
      } else {
        assert [] + rest == rest;
      }
    }
  }

  lemma {:induction false} BlankedAt(d: Dictionary, key: string, i: nat)
    requires i < |d|
    ensures |Blanked(d, key)| == |d|
    ensures Blanked(d, key)[i] == if d[i].0 == key then (key, None) else d[i]
  {
    if i > 0 {
      BlankedAt(d[1..], key, i - 1);
    } else if |d| > 1 {
      BlankedAt(d[1..], key, 0);
    }
  }

  // ---------------------------------------------------------------- the fourteen keys

  /** Length and middle character: enough to tell the keys apart. */
  function Signature(key: string): (nat, char) {
    if key == "" then (0, ' ') else (|key|, key[|key| / 2])
  }

  function Signatures(): seq<(nat, char)> {
    [(10, 's'), (8, 's'), (14, 'd'), (14, 'o'), (16, 'n'), (16, '_'), (13, 'o'), (11, 'i'), (13, 'f'), (13, 'e'),
     (7, 'u'), (4, 'w'), (19, '_'), (9, 's')]
  }

  lemma KeySignature(e: ObservabilityEntry, i: nat)
    requires i < 14
    ensures Signature(AsDict(e)[i].0) == Signatures()[i]
  {
  }

  lemma SignaturesDiffer(i: nat, j: nat)
    requires i < j < 14
    ensures Signatures()[i] != Signatures()[j]
  {
  }

  predicate KeysDiffer(d: Dictionary) {
    forall i, j :: 0 <= i < j < |d| ==> d[i].0 != d[j].0
  }

  lemma AsDictKeysDiffer(e: ObservabilityEntry)
    ensures KeysDiffer(AsDict(e))
  {
    var d := AsDict(e);
    forall i, j | 0 <= i < j < |d| ensures d[i].0 != d[j].0 {
      KeySignature(e, i);
      KeySignature(e, j);
      SignaturesDiffer(i, j);
    }
  }

  lemma RestrictedDict(e: ObservabilityEntry)
    ensures Blanked(Blanked(AsDict(e), "rows"), "columns") == AsDict(WithoutResultData(e))
  {
    var d, w := AsDict(e), AsDict(WithoutResultData(e));
    var once := Blanked(d, "rows");
    AsDictKeysDiffer(e);
    BlankedAt(d, "rows", 0);
    BlankedAt(once, "columns", 0);
    forall i | 0 <= i < 14 ensures Blanked(once, "columns")[i] == w[i] {
      BlankedAt(d, "rows", i);
      BlankedAt(once, "columns", i);
      assert d[11].0 == "rows" && d[10].0 == "columns";
      assert i != 10 && i != 11 ==> d[i] == w[i];
    }
  }

  /** The restricted view is the full view of the entry without its result data. */
  lemma RestrictedViewIsBlind(e: ObservabilityEntry)
    ensures ToJsonPayload(e, false) == ToJsonPayload(WithoutResultData(e), true)
  {
    PoppedPresent(AsDict(e), "rows");
    PoppedPresent(Blanked(AsDict(e), "rows"), "columns");
    RestrictedDict(e);
  }

  // ---------------------------------------------------------------- reading a payload back

  /** The value under a key. */
  function Get(p: Payload, key: string): Option<Value> {
    if p == [] then None else if p[0].0 == key then Some(p[0].1) else Get(p[1..], key)
  }

  function Decoded<T>(value: Option<Value>, decode: Value -> T): Option<T> {
    if value.Some? then Some(decode(value.value)) else None
  }

  function TextOf(v: Value): string {
    if v.Str? then v.s else ""
  }

  function IntegerOf(v: Value): int {
    if v.Num? && v.number.Int? then v.number.n else 0
  }

  function FloatOf(v: Value): FiniteFloat {
    if v.Num? && v.number.Float? then v.number.f else Scientific(false, 0, 0)
  }

  function ItemsOf(v: Value): seq<Value> {
    if v.Arr? then v.items else []
  }

  function StringsOf(v: Value): seq<string> {
    seq(|ItemsOf(v)|, i requires 0 <= i < |ItemsOf(v)| => TextOf(ItemsOf(v)[i]))
  }

  function RowsOf(v: Value): seq<seq<Value>> {
    seq(|ItemsOf(v)|, i requires 0 <= i < |ItemsOf(v)| => ItemsOf(ItemsOf(v)[i]))
  }

  function TextAt(p: Payload, key: string): string {
    if Get(p, key).Some? then TextOf(Get(p, key).value) else ""
  }

  function DecisionFrom(text: string): Decision {
    if text == "allowed" then ALLOWED else if text == "rejected" then REJECTED else DB_ERROR
  }

  /** The entry that a payload describes, read key by key. */
  function FromPayload(p: Payload): ObservabilityEntry {
    ObservabilityEntry(
      TextAt(p, "request_id"),
      DecisionFrom(TextAt(p, "decision")),
      TextAt(p, "redacted_query"),
      Decoded(Get(p, "rejection_code"), v => TextOf(v)),
      Decoded(Get(p, "rejection_detail"), v => TextOf(v)),
      Decoded(Get(p, "db_error_message"), v => TextOf(v)),
      Decoded(Get(p, "db_error_code"), v => TextOf(v)),
      Decoded(Get(p, "duration_ms"), v => FloatOf(v)),
      Decoded(Get(p, "rows_affected"), v => IntegerOf(v)),
      Decoded(Get(p, "rows_returned"), v => IntegerOf(v)),
      Decoded(Get(p, "columns"), v => StringsOf(v)),
      Decoded(Get(p, "rows"), v => RowsOf(v)),
      Decoded(Get(p, "rows_were_truncated"), v => v == Bool(true)),
      TextAt(p, "timestamp"))
  }

  lemma PresentStep(d: Dictionary, key: string)
    requires d != []
    ensures Get(Present(d), key) ==
            if d[0].1.Some? && d[0].0 == key then d[0].1 else Get(Present(d[1..]), key)
  {
    var rest := Present(d[1..]);
    if d[0].1.Some? {
      assert ([(d[0].0, d[0].1.value)] + rest)[1..] == rest;
    } else {
      assert [] + rest == rest;
    }
  }

  lemma {:induction false} GetAbsent(d: Dictionary, key: string)
    requires forall i :: 0 <= i < |d| ==> d[i].0 != key
    ensures Get(Present(d), key) == None
  {
    if d != [] {
      PresentStep(d, key);
      GetAbsent(d[1..], key);
    }
  }

  lemma {:induction false} GetPresent(d: Dictionary, i: nat)
    requires KeysDiffer(d) && i < |d|
    ensures Get(Present(d), d[i].0) == d[i].1
  {
    var rest := d[1..];
    PresentStep(d, d[i].0);
    if i == 0 {
      GetAbsent(rest, d[0].0);
    } else {
      assert rest[i - 1] == d[i];
      GetPresent(rest, i - 1);
    }
  }

  lemma FieldRead(e: ObservabilityEntry, i: nat)
    requires i < 14
    ensures Get(Present(AsDict(e)), AsDict(e)[i].0) == AsDict(e)[i].1
  {
    AsDictKeysDiffer(e);
    GetPresent(AsDict(e), i);
  }

  /** The keys that a reader finds the texts under, and what the decision is called. */
  lemma TextKeys(e: ObservabilityEntry)
    ensures var p := ToJsonPayload(e, true);
            && Get(p, "request_id") == Some(Str(e.requestId)) && Get(p, "redacted_query") == Some(Str(e.redactedQuery))
            && Get(p, "timestamp") == Some(Str(e.timestamp))
            && (e.decision == ALLOWED <==> Get(p, "decision") == Some(Str("allowed")))
            && (e.decision == REJECTED <==> Get(p, "decision") == Some(Str("rejected")))
            && (e.decision == DB_ERROR <==> Get(p, "decision") == Some(Str("db_error")))
  {
    FieldRead(e, 0);
    FieldRead(e, 1);
    FieldRead(e, 2);
    FieldRead(e, 13);
  }

  /** The keys of what an entry need not have: a key is there exactly if the entry has it. */
  lemma OptionalKeys(e: ObservabilityEntry)
    ensures var p := ToJsonPayload(e, true);
            && Get(p, "rejection_code") == Encoded(e.rejectionCode, s => Str(s))
            && Get(p, "rejection_detail") == Encoded(e.rejectionDetail, s => Str(s))
            && Get(p, "db_error_message") == Encoded(e.dbErrorMessage, s => Str(s))
            && Get(p, "db_error_code") == Encoded(e.dbErrorCode, s => Str(s))
  {
    FieldRead(e, 3);
    FieldRead(e, 4);
    FieldRead(e, 5);
    FieldRead(e, 6);
  }

  lemma ResultKeys(e: ObservabilityEntry)
    ensures var p := ToJsonPayload(e, true);
            && Get(p, "duration_ms") == Encoded(e.durationMs, (x: FiniteFloat) => Num(Float(x)))
            && Get(p, "rows_affected") == Encoded(e.rowsAffected, (n: int) => Num(Int(n)))
            && Get(p, "rows_returned") == Encoded(e.rowsReturned, (n: int) => Num(Int(n)))
            && Get(p, "columns") == Encoded(e.columns, c => Strings(c))
            && Get(p, "rows") == Encoded(e.rows, r => Rows(r))
            && Get(p, "rows_were_truncated") == Encoded(e.rowsWereTruncated, b => Bool(b))
  {
    FieldRead(e, 7);
    FieldRead(e, 8);
    FieldRead(e, 9);
    FieldRead(e, 10);
    FieldRead(e, 11);
    FieldRead(e, 12);
  }

  lemma StringsBack(xs: seq<string>)
    ensures StringsOf(Strings(xs)) == xs
  {
  }

  lemma RowsBack(rows: seq<seq<Value>>)
    ensures RowsOf(Rows(rows)) == rows
  {
  }

  lemma TextsBack(e: ObservabilityEntry)
    ensures var f := FromPayload(Present(AsDict(e)));
            && f.requestId == e.requestId && f.decision == e.decision && f.redactedQuery == e.redactedQuery
            && f.rejectionCode == e.rejectionCode && f.rejectionDetail == e.rejectionDetail
            && f.dbErrorMessage == e.dbErrorMessage && f.dbErrorCode == e.dbErrorCode && f.timestamp == e.timestamp
  {
    FieldRead(e, 0);
    FieldRead(e, 1);
    FieldRead(e, 2);
    FieldRead(e, 3);
    FieldRead(e, 4);
    FieldRead(e, 5);
    FieldRead(e, 6);
    FieldRead(e, 13);
  }

  lemma NumbersBack(e: ObservabilityEntry)
    ensures var f := FromPayload(Present(AsDict(e)));
            && f.durationMs == e.durationMs && f.rowsAffected == e.rowsAffected && f.rowsReturned == e.rowsReturned
            && f.rowsWereTruncated == e.rowsWereTruncated
  {
    ResultKeys(e);
  }

  lemma ResultDataBack(e: ObservabilityEntry)
    ensures var f := FromPayload(Present(AsDict(e))); f.columns == e.columns && f.rows == e.rows
  {
    FieldRead(e, 10);
    FieldRead(e, 11);
    if e.columns.Some? {
      StringsBack(e.columns.value);
    }
    if e.rows.Some? {
      RowsBack(e.rows.value);
    }
  }

  /** The full payload determines the entry; the restricted one determines it up to its result data. */
  lemma PayloadRoundTrip(e: ObservabilityEntry)
    ensures FromPayload(ToJsonPayload(e, true)) == e
    ensures FromPayload(ToJsonPayload(e, false)) == WithoutResultData(e)
  {
    FieldsBack(e);
    RestrictedViewIsBlind(e);
    FieldsBack(WithoutResultData(e));
  }

  lemma FieldsBack(e: ObservabilityEntry)
    ensures FromPayload(Present(AsDict(e))) == e
  {
    TextsBack(e);
    NumbersBack(e);
    ResultDataBack(e);
  }
}
