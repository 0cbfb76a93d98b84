/** Decoded JSON documents, as `json.loads` hands them to the release
    manager, and Python's `int(...)` conversion applied to such a value. */
module JsonValues {
  import opened Common
  import opened Seqs
  import opened Chars

  /** A decoded JSON value. Numbers are integers only: fractional numbers
      are not part of this model. */
  datatype Json =
    | Null
    | Bool(b: bool)
    | Num(n: int)
    | Str(s: string)
    | Arr(items: seq<Json>)
    | Obj(fields: map<string, Json>)

  /** The whitespace `int()` skips around an ASCII string: space and
      `\t` through `\r`. The separators U+001C to U+001F count as space for
      `str.isspace()` but not here. */
  predicate IsSpace(c: char) {
    c == ' ' || ('\t' <= c <= '\r')
  }

  /** The default limit on the number of digits `int()` converts from a
      string (`sys.int_info.default_max_str_digits`); a longer digit string
      raises `ValueError`. Underscores and the sign do not count. */
  const MaxStrDigits := 4300

  function DigitValue(c: char): nat
    requires IsAsciiDigit(c)
  {
    (c as int) - ('0' as int)
  }

  function Digit(d: nat): (c: char)
    requires d < 10
    ensures IsAsciiDigit(c) && DigitValue(c) == d
  {
    ('0' as int + d) as char
  }

  /** The value of a string of decimal digits, most significant first. */
  function DigitsValue(s: string): nat
    requires forall i :: 0 <= i < |s| ==> IsAsciiDigit(s[i])
  {
    if |s| == 0 then 0
    else DigitsValue(s[..|s| - 1]) * 10 + DigitValue(s[|s| - 1])
  }

  /** The digit part Python's `int()` accepts: digits, optionally split
      into groups by single underscores, starting and ending with a digit. */
  predicate DigitGroups(s: string) {
    && |s| > 0
    && (forall i :: 0 <= i < |s| ==> IsAsciiDigit(s[i]) || s[i] == '_')
    && IsAsciiDigit(s[0]) && IsAsciiDigit(s[|s| - 1])
    && (forall i :: 0 <= i < |s| - 1 ==> !(s[i] == '_' && s[i + 1] == '_'))
  }

  /** Python's `int(s)` for a string: surrounding whitespace, then an
      optional sign, then digit groups. `None` is the `ValueError` case. */
  function ParseInt(s: string): Option<int> {
    ParseSigned(Trim(s, IsSpace))
  }

  /** An optional sign followed by digit groups. */
  function ParseSigned(t: string): Option<int> {
    if |t| > 0 && t[0] == '-' then
      match ParseDigits(t[1..])
      case Some(v) => Some(-v)
      case None => None
    else if |t| > 0 && t[0] == '+' then ParseDigits(t[1..])
    else ParseDigits(t)
  }

  /** Digit groups; the underscores carry no value. More digits than
      `MaxStrDigits` are refused. */
  function ParseDigits(body: string): Option<int> {
    if !DigitGroups(body) then None
    else
      KeepSatisfies(body, IsAsciiDigit);
      var digits := Keep(body, IsAsciiDigit);
      if |digits| > MaxStrDigits then None else Some(DigitsValue(digits))
  }

  /** Python's `int(v)` applied to a decoded JSON value: integers pass
      through, booleans become 0 or 1, strings are parsed, and anything
      else raises (`None`). */
  function ToInt(v: Json): Option<int> {
    match v
    case Num(n) => Some(n)
    case Bool(b) => Some(if b then 1 else 0)
    case Str(s) => ParseInt(s)
    case _ => None
  }

  /** Python's `str(n)` for a natural number. */
  function ShowNat(n: nat): (s: string)
    ensures |s| > 0
    ensures forall i :: 0 <= i < |s| ==> IsAsciiDigit(s[i])
  {
    if n < 10 then [Digit(n)] else ShowNat(n / 10) + [Digit(n % 10)]
  }

  /** Python's `str(n)` for an integer. */
  function ShowInt(n: int): string {
    if n < 0 then "-" + ShowNat(-n) else ShowNat(n)
  }

  lemma {:induction false} DigitsValueShowNat(n: nat)
    ensures DigitsValue(ShowNat(n)) == n
    decreases n
  {
    if n >= 10 {
      var s := ShowNat(n);
      assert s[..|s| - 1] == ShowNat(n / 10);
      DigitsValueShowNat(n / 10);
    }
  }

  /** A printed natural number is a valid digit string with nothing to trim. */
  lemma ShowNatShape(n: nat)
    ensures DigitGroups(ShowNat(n))
    ensures Keep(ShowNat(n), IsAsciiDigit) == ShowNat(n)
    ensures !IsSpace(ShowNat(n)[0]) && !IsSpace(ShowNat(n)[|ShowNat(n)| - 1])
  {
    KeepAll(ShowNat(n), IsAsciiDigit);
  }

  /** The digits of a printed natural number parse back to it, within the
      digit limit. */
  lemma ParseDigitsShowNat(m: nat)
    ensures ParseDigits(ShowNat(m)) == if |ShowNat(m)| <= MaxStrDigits then Some(m) else None
  {
    ShowNatShape(m);
    DigitsValueShowNat(m);
  }

  /** Printing leaves nothing for `int()` to trim. */
  lemma ShowIntUntrimmed(n: int)
    ensures Trim(ShowInt(n), IsSpace) == ShowInt(n)
  {
    var m := if n < 0 then -n else n;
    var s := ShowInt(n);
    ShowNatShape(m);
    assert s[|s| - 1] == ShowNat(m)[|ShowNat(m)| - 1];
    assert !IsSpace(s[0]);
    TrimFixed(s, IsSpace);
  }

  /** Parsing inverts printing: `int(str(n)) == n` for every integer
      whose decimal form fits the digit limit, and longer ones are refused. */
  lemma ParseShowInt(n: int)
    ensures ParseInt(ShowInt(n)) ==
      if |ShowNat(if n < 0 then -n else n)| <= MaxStrDigits then Some(n) else None
  {
    ParseSignedShowInt(n);
    ShowIntUntrimmed(n);
  }

  /** The sign and digits of a printed integer parse back to it. */
  lemma ParseSignedShowInt(n: int)
    ensures ParseSigned(ShowInt(n)) ==
      if |ShowNat(if n < 0 then -n else n)| <= MaxStrDigits then Some(n) else None
  {
    var m := if n < 0 then -n else n;
    var d := ShowNat(m);
    ParseDigitsShowNat(m);
    ParseSignedDigits(d);
    if n < 0 {
      assert ShowInt(n) == "-" + d;
    } else {
      assert ShowInt(n) == d;
    }
  }

  /** A digit string parses the same with no sign, and negated after `-`. */
  lemma ParseSignedDigits(d: string)
    requires |d| > 0 && IsAsciiDigit(d[0])
    ensures ParseSigned(d) == ParseDigits(d)
    ensures ParseSigned("-" + d) ==
      if ParseDigits(d).Some? then Some(-ParseDigits(d).value) else None
  {
    assert ("-" + d)[1..] == d;
  }

  /** `int()` refuses a string that starts with an information separator
      such as U+001C, although `str.isspace()` counts it as space. */
  lemma SeparatorNotSkipped(t: string)
    ensures ParseInt(['\U{1C}'] + t) == None
  {
    var s := ['\U{1C}'] + t;
    assert !IsSpace(s[0]);
    assert Trim(s, IsSpace)[0] == '\U{1C}';
  }

  /** `int()` skips the ASCII whitespace around a number. */
  lemma SpacesSkipped(n: int)
    ensures ParseInt(" " + ShowInt(n) + "\n") == ParseInt(ShowInt(n))
  {
    var d := ShowInt(n);
    var s := " " + d + "\n";
    ShowIntUntrimmed(n);
    assert |d| > 0 && !IsSpace(d[0]) && !IsSpace(d[|d| - 1]) by {
      ShowNatShape(if n < 0 then -n else n);
      assert d[|d| - 1] == ShowNat(if n < 0 then -n else n)[|ShowNat(if n < 0 then -n else n)| - 1];
    }
    assert s[1..|s| - 1] == d;
    TrimUnique(s, 1, |s| - 1, IsSpace);
  }
}
