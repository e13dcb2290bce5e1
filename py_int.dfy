/**
 * Python's `int(s)` on a string, base 10: surrounding whitespace is
 * ignored, one optional sign `+` or `-` may precede the digits, the
 * digits may be grouped by single underscores (`1_000`), and leading
 * zeros are allowed. More than 4300 digits is refused (CPython's default
 * `sys.get_int_max_str_digits()`, from Python 3.11 on). Anything else is a
 * `ValueError`, here `None`. Only ASCII digits and ASCII whitespace are
 * recognised.
 */
module PyInt {
  import opened Wrappers
  import opened PyText

  predicate IsDigit(c: char)
  {
    '0' <= c <= '9'
  }

  /**
   * The ASCII characters `int` strips around a numeral: the C-locale
   * spaces ` `, `\t`, `\n`, `\v`, `\f` and `\r`. U+001C to U+001F, which
   * `str.isspace` accepts, are not among them.
   */
  predicate IsSpace(c: char)
  {
    c == ' ' || '\t' <= c <= '\r'
  }

  /** The most digits `int` converts from a decimal string. */
  const MaxStrDigits := 4300

  /** The number of decimal digits in `s`; underscores and other characters do not count. */
  function DigitCount(s: string): (k: nat)
    ensures k <= |s|
    ensures (forall i :: 0 <= i < |s| ==> IsDigit(s[i])) ==> k == |s|
  {
    if s == [] then 0
    else DigitCount(s[..|s| - 1]) + (if IsDigit(s[|s| - 1]) then 1 else 0)
  }

  /** `s.lstrip()`: drops the leading whitespace and nothing else. */
  function TrimLeft(s: string): (r: string)
    ensures |r| <= |s| && r == s[|s| - |r|..]
    ensures r == [] || !IsSpace(r[0])
    ensures forall i :: 0 <= i < |s| - |r| ==> IsSpace(s[i])
  {
    if |s| > 0 && IsSpace(s[0]) then TrimLeft(s[1..]) else s
  }

  /** `s.rstrip()`: drops the trailing whitespace and nothing else. */
  function TrimRight(s: string): (r: string)
    ensures |r| <= |s| && r == s[..|r|]
    ensures r == [] || !IsSpace(r[|r| - 1])
    ensures forall i :: |r| <= i < |s| ==> IsSpace(s[i])
  {
    if |s| > 0 && IsSpace(s[|s| - 1]) then TrimRight(s[..|s| - 1]) else s
  }

  predicate AllNumeral(s: string)
  {
    forall i :: 0 <= i < |s| ==> IsNumeral(s[i])
  }

  /** Stripping whitespace removes only numeral characters. */
  lemma StripNumeral(s: string)
    requires AllNumeral(TrimRight(TrimLeft(s)))
    ensures AllNumeral(s)
  {
    var l := TrimLeft(s);
    var t := TrimRight(l);
    var off := |s| - |l|;
    forall i | 0 <= i < |s| ensures IsNumeral(s[i]) {
      if off <= i < off + |t| {
        assert s[i] == l[i - off] == t[i - off];
      } else if off + |t| <= i {
        assert s[i] == l[i - off];
      }
    }
  }

  /** The characters that may appear anywhere in a string `int` accepts. */
  predicate IsNumeral(c: char)
  {
    IsDigit(c) || IsSpace(c) || c == '+' || c == '-' || c == '_'
  }

  /**
   * The value of a digit group `d ('_'? d)*`: digits, with single
   * underscores allowed only between two digits; `None` for anything else.
   */
  function GroupValue(b: string): (r: Option<nat>)
    ensures r.Some? ==> forall i :: 0 <= i < |b| ==> IsDigit(b[i]) || b[i] == '_'
    ensures r.Some? ==> |b| > 0
    decreases |b|
  {
    if |b| == 0 || !IsDigit(b[|b| - 1]) then None
    else
      var d := b[|b| - 1] as int - '0' as int;
      if |b| == 1 then Some(d)
      else
        var init := if b[|b| - 2] == '_' then b[..|b| - 2] else b[..|b| - 1];
        match GroupValue(init)
        case None => None
        case Some(v) =>
          assert forall i :: 0 <= i < |init| ==> b[i] == init[i];
          Some(10 * v + d)
  }

  /** `int(s)`; `None` stands for the `ValueError` Python raises. */
  function ParseInt(s: string): (r: Option<int>)
    ensures r.Some? ==> AllNumeral(s)
    ensures r.Some? && '-' !in s ==> r.value >= 0
  {
    var l := TrimLeft(s);
    var t := TrimRight(l);
    var signed := |t| > 0 && (t[0] == '+' || t[0] == '-');
    var body := if signed then t[1..] else t;
    match GroupValue(body)
    case None => None
    case Some(v) =>
      if DigitCount(body) > MaxStrDigits then None
      else
        assert AllNumeral(t) by {
          forall j | 0 <= j < |t| ensures IsNumeral(t[j]) {
            if signed && j > 0 {
              assert body[j - 1] == t[j];
            } else if !signed {
              assert body[j] == t[j];
            }
          }
        }
        StripNumeral(s);
        if signed && t[0] == '-' then
          assert s[|s| - |l|] == t[0];
          var negative: int := -(v as int);
          Some(negative)
        else Some(v)
  }

  lemma {:induction false} GroupValueDecimal(n: nat)
    ensures GroupValue(Decimal(n)) == Some(n)
  {
    if n >= 10 {
      var d := Decimal(n);
      assert d[..|d| - 1] == Decimal(n / 10);
      GroupValueDecimal(n / 10);
    }
  }

  /**
   * The information separators U+001C to U+001F are not whitespace to
   * `int`: a string holding one is refused.
   */
  lemma SeparatorRefused(s: string, k: nat)
    requires k < |s| && '\U{1C}' <= s[k] <= '\U{1F}'
    ensures ParseInt(s) == None
  {
    assert !IsNumeral(s[k]);
  }

  /** A bare digit string is read as its digit group, unless it has more digits than the limit. */
  lemma ParseDigits(s: string)
    requires |s| > 0 && forall i :: 0 <= i < |s| ==> IsDigit(s[i])
    ensures |s| <= MaxStrDigits ==> ParseInt(s) == GroupValue(s)
    ensures |s| > MaxStrDigits ==> ParseInt(s) == None
  {
    assert !IsSpace(s[0]);
    var l := TrimLeft(s);
    assert l == s;
    assert !IsSpace(s[|s| - 1]);
    var t := TrimRight(l);
    assert t == s;
    assert t[0] != '+' && t[0] != '-';
  }

  /** `int(str(n)) == n`: the parser reads back what the renderer writes. */
  lemma ParseDecimal(n: nat)
    requires |Decimal(n)| <= MaxStrDigits
    ensures ParseInt(Decimal(n)) == Some(n)
  {
    ParseDigits(Decimal(n));
    GroupValueDecimal(n);
  }
}
