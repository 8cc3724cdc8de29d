/** The callback payload of an inline button, `delete_<id>` or `toggle_<id>`:
    the bot's only wire format. Formatting is Python's f-string of an int;
    parsing is a `startswith` test followed by `int(data.split('_')[1])`. */
module Payload {
  import opened Wrappers

  datatype Action = Delete | Toggle

  /** What a button press asks of the store. */
  datatype Command = Act(action: Action, id: int) | NoAction

  /** `split('_')[1]` found no second field (IndexError), or `int` rejected
      the field (ValueError). */
  datatype PayloadError = MissingField | NotAnInteger

  function Prefix(a: Action): string {
    match a
    case Delete => "delete_"
    case Toggle => "toggle_"
  }

  predicate StartsWith(s: string, prefix: string) {
    |prefix| <= |s| && s[..|prefix|] == prefix
  }

  // ---------------------------------------------------------------------
  // str(int) and int(str)
  // ---------------------------------------------------------------------

  predicate IsDigit(c: char) {
    '0' <= c <= '9'
  }

  predicate AllDigits(s: string) {
    forall i :: 0 <= i < |s| ==> IsDigit(s[i])
  }

  function DigitChar(d: nat): (c: char)
    requires d < 10
    ensures IsDigit(c)
  {
    ('0' as int + d) as char
  }

  function DigitValue(c: char): nat
    requires IsDigit(c)
  {
    c as int - '0' as int
  }

  /** str(n) for n >= 0: at least one decimal digit, and no leading zero
      unless n is zero. */
  function NatToDecimal(n: nat): (s: string)
    ensures s != [] && AllDigits(s)
    ensures s[0] == '0' ==> n == 0
  {
    if n < 10 then [DigitChar(n)] else NatToDecimal(n / 10) + [DigitChar(n % 10)]
  }

  /** The number a string of decimal digits denotes (leading zeros allowed). */
  function DecimalValue(s: string): nat
    requires AllDigits(s)
  {
    if s == [] then 0 else DecimalValue(s[..|s| - 1]) * 10 + DigitValue(s[|s| - 1])
  }

  /** str(i): a minus sign for negative numbers, then the digits. */
  function IntToString(i: int): (s: string)
    ensures s != [] && '_' !in s
  {
    if i < 0 then "-" + NatToDecimal(-i) else NatToDecimal(i)
  }

  /** The fields int() accepts here: an optional sign followed by one or
      more decimal digits. */
  predicate IsIntLiteral(s: string) {
    s != [] && AllDigits(s[1..]) && (IsDigit(s[0]) || ((s[0] == '+' || s[0] == '-') && |s| > 1))
  }

  /** int(s) on a field that holds no '_': an optional sign followed by one
      or more decimal digits; anything else is a ValueError. */
  function ParseInt(s: string): (r: Option<int>)
    ensures r.Some? <==> IsIntLiteral(s)
    ensures s == [] ==> r.None?
    ensures r.Some? ==> forall i :: 0 < i < |s| ==> IsDigit(s[i])
    ensures r.Some? && |s| > 0 && s[0] == '-' ==> r.value <= 0
    ensures r.Some? && IsDigit(s[0]) ==> r.value == DecimalValue(s)
    ensures r.Some? && s[0] == '+' ==> r.value == DecimalValue(s[1..])
    ensures r.Some? && s[0] == '-' ==> r.value == -(DecimalValue(s[1..]) as int)
  {
    if s != [] && (s[0] == '-' || s[0] == '+') then
      var digits := s[1..];
      if digits != [] && AllDigits(digits) then
        var v: int := DecimalValue(digits);
        Some(if s[0] == '-' then -v else v)
      else None
    else if s != [] && AllDigits(s) then Some(DecimalValue(s))
    else None
  }

  // ---------------------------------------------------------------------
  // split('_')[1]
  // ---------------------------------------------------------------------

  /** The longest prefix of s without '_'. */
  function UpToSep(s: string): (r: string)
    ensures '_' !in r && |r| <= |s| && r == s[..|r|]
  {
    if s == [] || s[0] == '_' then [] else [s[0]] + UpToSep(s[1..])
  }

  /** s.split('_')[1]: the text between the first '_' and the next one (or
      the end); None when s holds no '_' at all. */
  function SecondField(s: string): (r: Option<string>)
    ensures r.None? <==> '_' !in s
  {
    if s == [] then None
    else if s[0] == '_' then Some(UpToSep(s[1..]))
    else SecondField(s[1..])
  }

  // ---------------------------------------------------------------------
  // The payload
  // ---------------------------------------------------------------------

  /** f"delete_{id}" / f"toggle_{id}": the action's prefix followed by one
      non-empty field without '_' (the decimal id; see ParseFormat). */
  function Format(a: Action, id: int): (r: string)
    ensures StartsWith(r, Prefix(a))
    ensures |r| > |Prefix(a)| && '_' !in r[|Prefix(a)|..]
  {
    var r := Prefix(a) + IntToString(id);
    assert r[..|Prefix(a)|] == Prefix(a) && r[|Prefix(a)|..] == IntToString(id);
    r
  }

  /** int(data.split('_')[1]) as the id of action a. */
  function ParseId(data: string, a: Action): (r: Result<Command, PayloadError>)
    ensures r.Ok? ==> r.value.Act? && r.value.action == a
    ensures r == Err(MissingField) <==> '_' !in data
    ensures SecondField(data).Some? ==>
      (r.Ok? <==> IsIntLiteral(SecondField(data).value)) &&
      (r.Ok? ==> r.value.id == ParseInt(SecondField(data).value).value)
  {
    match SecondField(data)
    case None => Err(MissingField)
    case Some(field) =>
      match ParseInt(field)
      case None => Err(NotAnInteger)
      case Some(id) => Ok(Act(a, id))
  }

  /** The branch in button_callback: `delete_` first, then `toggle_`, and any
      other payload asks for nothing. */
  function ParseCallback(data: string): (r: Result<Command, PayloadError>)
    ensures r.Ok? && r.value.Act? ==> StartsWith(data, Prefix(r.value.action))
    ensures r == Ok(NoAction) <==> !StartsWith(data, Prefix(Delete)) && !StartsWith(data, Prefix(Toggle))
    ensures r.Err? ==> StartsWith(data, Prefix(Delete)) || StartsWith(data, Prefix(Toggle))
  {
    if StartsWith(data, Prefix(Delete)) then ParseId(data, Delete)
    else if StartsWith(data, Prefix(Toggle)) then ParseId(data, Toggle)
    else Ok(NoAction)
  }

  // ---------------------------------------------------------------------
  // Round trips
  // ---------------------------------------------------------------------

  lemma {:induction false} DecimalRoundTrip(n: nat)
    ensures DecimalValue(NatToDecimal(n)) == n
  {
    if n >= 10 {
      var s := NatToDecimal(n);
      assert s[..|s| - 1] == NatToDecimal(n / 10);
      DecimalRoundTrip(n / 10);
    }
  }

  /** int(str(i)) == i */
  lemma ParseIntRoundTrip(i: int)
    ensures ParseInt(IntToString(i)) == Some(i)
  {
    if i < 0 {
      var s := IntToString(i);
      assert s[1..] == NatToDecimal(-i);
      DecimalRoundTrip(-i);
    } else {
      DecimalRoundTrip(i);
    }
  }

  lemma {:induction false} UpToSepWhole(s: string)
    requires '_' !in s
    ensures UpToSep(s) == s
  {
    if s != [] {
      UpToSepWhole(s[1..]);
    }
  }

  /** The second field of w + "_" + t, for w without '_', is the first
      '_'-free stretch of t. */
  lemma {:induction false} SecondFieldAfter(w: string, t: string)
    requires '_' !in w
    ensures SecondField(w + "_" + t) == Some(UpToSep(t))
  {
    if w == [] {
      assert (w + "_" + t)[1..] == t;
    } else {
      assert (w + "_" + t)[1..] == w[1..] + "_" + t;
      SecondFieldAfter(w[1..], t);
    }
  }

  /** A payload behind an action's prefix is parsed as that action's id. */
  lemma PrefixSelects(a: Action, rest: string)
    ensures ParseCallback(Prefix(a) + rest) == ParseId(Prefix(a) + rest, a)
    ensures SecondField(Prefix(a) + rest) == Some(UpToSep(rest))
  {
    var data := Prefix(a) + rest;
    assert data[..|Prefix(a)|] == Prefix(a);
    if a == Toggle {
      assert data[0] == 't';
    }
    var w := if a == Delete then "delete" else "toggle";
    assert data == w + "_" + rest;
    SecondFieldAfter(w, rest);
  }

  lemma {:induction false} UpToSepUntil(s: string, tail: string)
    requires '_' !in s && tail != [] && tail[0] == '_'
    ensures UpToSep(s + tail) == s
  {
    if s == [] {
      assert s + tail == tail;
    } else {
      assert (s + tail)[1..] == s[1..] + tail;
      UpToSepUntil(s[1..], tail);
    }
  }

  /** Every payload the bot puts on a button parses back to the same action
      and the same id. */
  lemma ParseFormat(a: Action, id: int)
    ensures ParseCallback(Format(a, id)) == Ok(Act(a, id))
  {
    PrefixSelects(a, IntToString(id));
    UpToSepWhole(IntToString(id));
    ParseIntRoundTrip(id);
  }

  /** A payload behind an action's prefix whose id field is not an integer
      literal (an empty field included) raises ValueError; one whose field
      is a literal asks for that action on int(field). */
  lemma PrefixedField(a: Action, field: string)
    requires '_' !in field
    ensures ParseCallback(Prefix(a) + field) ==
      if IsIntLiteral(field) then Ok(Act(a, ParseInt(field).value)) else Err(NotAnInteger)
  {
    PrefixSelects(a, field);
    UpToSepWhole(field);
  }

  /** In particular a non-numeric id is an error, never an action. */
  lemma NonNumericIdRejected(a: Action, field: string)
    requires '_' !in field && !IsIntLiteral(field)
    ensures ParseCallback(Prefix(a) + field) == Err(NotAnInteger)
  {
    PrefixedField(a, field);
  }

  /** split('_')[1] ignores whatever follows a second '_'. */
  lemma TrailingFieldsIgnored(a: Action, id: int, tail: string)
    requires tail != [] && tail[0] == '_'
    ensures ParseCallback(Format(a, id) + tail) == Ok(Act(a, id))
  {
    assert Format(a, id) + tail == Prefix(a) + (IntToString(id) + tail);
    PrefixSelects(a, IntToString(id) + tail);
    UpToSepUntil(IntToString(id), tail);
    ParseIntRoundTrip(id);
  }

  /** Distinct buttons carry distinct payloads. */
  lemma FormatInjective(a: Action, id: int, b: Action, jd: int)
    requires Format(a, id) == Format(b, jd)
    ensures a == b && id == jd
  {
    ParseFormat(a, id);
    ParseFormat(b, jd);
  }
}
