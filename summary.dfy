/** The label that `arch_summary` in fast_impl/core.py puts in front of each
    child of the summarised module. A child whose name is a number (the
    children of a `Sequential`) is labelled by that name alone; any other
    child by its position in the enumeration followed by its name in
    parentheses. Both fields are padded with spaces to fixed minimum widths,
    as Python's `<` format alignment does. */
module Summary {

  predicate IsDigit(c: char) {
    '0' <= c <= '9'
  }

  /** `str.isdigit` on ASCII text: non-empty and made only of digits. */
  predicate IsDigits(s: string) {
    |s| > 0 && forall k :: 0 <= k < |s| ==> IsDigit(s[k])
  }

  function Spaces(k: nat): (r: string)
    ensures |r| == k
    ensures forall j :: 0 <= j < k ==> r[j] == ' '
  {
    if k == 0 then "" else Spaces(k - 1) + " "
  }

  /** Python's `f'{s:<w}'`: `s` left-aligned in a field of at least `w`
      characters, filled with spaces. */
  function PadRight(s: string, w: nat): (r: string)
    ensures |r| == if |s| >= w then |s| else w
    ensures r[..|s|] == s
    ensures forall j :: |s| <= j < |r| ==> r[j] == ' '
  {
    if |s| >= w then s else s + Spaces(w - |s|)
  }

  function DigitChar(d: nat): (c: char)
    requires d < 10
    ensures IsDigit(c)
  {
    ('0' as int + d) as char
  }

  function DigitValue(c: char): (d: nat)
    requires IsDigit(c)
    ensures d < 10
  {
    c as int - '0' as int
  }

  /** Python's `str(n)` for a non-negative integer: its decimal digits. */
  function Decimal(n: nat): (r: string)
    ensures IsDigits(r)
    ensures |r| == 1 || r[0] != '0'
  {
    if n < 10 then [DigitChar(n)]
    else
      var p := Decimal(n / 10);
      assert p[0] != '0' by {
        if |p| == 1 {
          assert DigitValue(p[0]) == n / 10;
        }
      }
      p + [DigitChar(n % 10)]
  }

  /** The number a string of decimal digits denotes. */
  function DigitsValue(s: string): nat
    requires forall k :: 0 <= k < |s| ==> IsDigit(s[k])
  {
    if s == [] then 0
    else 10 * DigitsValue(s[..|s| - 1]) + DigitValue(s[|s| - 1])
  }

  /** Reading back the digits of `n` gives `n`: distinct positions are written
      differently. */
  lemma {:induction false} DecimalRoundTrip(n: nat)
    ensures DigitsValue(Decimal(n)) == n
  {
    var r := Decimal(n);
    if n >= 10 {
      var p := Decimal(n / 10);
      assert r[..|r| - 1] == p;
      DecimalRoundTrip(n / 10);
    }
  }

  /** The label of the child with position `i` and name `n` (line 31 of
      fast_impl/core.py). */
  function Label(i: nat, n: string): (r: string)
    ensures |r| >= 4 && r[0] == '['
    ensures IsDigits(n) <==> r[|r| - 1] == ']'
  {
    if IsDigits(n) then "[" + PadRight(n, 2) + "]"
    else "[" + PadRight(Decimal(i), 2) + "] " + PadRight("(" + n + ")", 10)
  }

  /** A numeric name is shown between brackets, padded to two characters. */
  lemma LabelOfNumericName(i: nat, n: string)
    requires IsDigits(n)
    ensures var r := Label(i, n);
      |r| == 2 + (if |n| >= 2 then |n| else 2) &&
      r[0] == '[' && r[1..1 + |n|] == n && r[|r| - 1] == ']' &&
      forall j :: 1 + |n| <= j < |r| - 1 ==> r[j] == ' '
  {
  }

  /** The shape of a label for a name `n` that is not a number, at the
      position written `d`: `[`, `d` padded to two, `] `, then `(n)` padded
      to ten. */
  ghost predicate OtherLabelShape(r: string, d: string, n: string) {
    var w := if |d| >= 2 then |d| else 2;
    && |r| == w + 3 + (if |n| + 2 >= 10 then |n| + 2 else 10)
    && r[0] == '[' && r[1..][..|d|] == d
    && (forall j :: 1 + |d| <= j < 1 + w ==> r[j] == ' ')
    && r[1 + w..3 + w] == "] "
    && r[3 + w..][..|n| + 2] == "(" + n + ")"
    && forall j :: 3 + w + |n| + 2 <= j < |r| ==> r[j] == ' '
  }

  /** Any other name follows the bracketed position, in parentheses, in a
      field of at least ten characters. */
  lemma LabelOfOtherName(i: nat, n: string)
    requires !IsDigits(n)
    ensures OtherLabelShape(Label(i, n), Decimal(i), n)
  {
  }

  /** In a string of digits followed by a non-digit, the digits end where
      the first non-digit stands: two such strings that are equal have equal
      digit parts. */
  lemma SameDigitPrefix(r: string, a: string, b: string)
    requires IsDigits(a) && IsDigits(b)
    requires |a| < |r| && |b| < |r|
    requires r[..|a|] == a && r[..|b|] == b
    requires !IsDigit(r[|a|]) && !IsDigit(r[|b|])
    ensures a == b
  {
  }

  /** A name in parentheses followed only by spaces ends at the last closing
      parenthesis: two such strings that are equal enclose equal names. */
  lemma SameParenthesized(s: string, n: string, m: string)
    requires |n| + 2 <= |s| && |m| + 2 <= |s|
    requires s[..|n| + 2] == "(" + n + ")" && s[..|m| + 2] == "(" + m + ")"
    requires forall j :: |n| + 2 <= j < |s| ==> s[j] == ' '
    requires forall j :: |m| + 2 <= j < |s| ==> s[j] == ' '
    ensures n == m
  {
    assert s[|m| + 1] == ("(" + m + ")")[|m| + 1];
    assert s[|n| + 1] == ("(" + n + ")")[|n| + 1];
    assert n == ("(" + n + ")")[1..|n| + 1];
    assert m == ("(" + m + ")")[1..|m| + 1];
  }

  lemma NumericLabelsIdentify(i: nat, n: string, j: nat, m: string)
    requires IsDigits(n) && IsDigits(m)
    requires Label(i, n) == Label(j, m)
    ensures n == m
  {
    var r := Label(i, n);
    LabelOfNumericName(i, n);
    LabelOfNumericName(j, m);
    var t := r[1..];
    assert t[..|n|] == r[1..1 + |n|] && t[..|m|] == r[1..1 + |m|];
    assert t[|n|] == r[1 + |n|] && t[|m|] == r[1 + |m|];
    SameDigitPrefix(t, n, m);
  }

  /** One string has at most one reading as a label of a non-numeric name. */
  lemma OtherLabelShapeUnique(r: string, d: string, n: string, e: string, m: string)
    requires IsDigits(d) && IsDigits(e)
    requires OtherLabelShape(r, d, n) && OtherLabelShape(r, e, m)
    ensures d == e && n == m
  {
    var t := r[1..];
    assert t[|d|] == r[1 + |d|] && t[|e|] == r[1 + |e|];
    SameDigitPrefix(t, d, e);
    var w := if |d| >= 2 then |d| else 2;
    var s := r[3 + w..];
    forall k | |n| + 2 <= k < |s| ensures s[k] == ' ' {
      assert s[k] == r[3 + w + k];
    }
    forall k | |m| + 2 <= k < |s| ensures s[k] == ' ' {
      assert s[k] == r[3 + w + k];
    }
    SameParenthesized(s, n, m);
  }

  lemma OtherLabelsIdentify(i: nat, n: string, j: nat, m: string)
    requires !IsDigits(n) && !IsDigits(m)
    requires Label(i, n) == Label(j, m)
    ensures n == m && i == j
  {
    LabelOfOtherName(i, n);
    LabelOfOtherName(j, m);
    OtherLabelShapeUnique(Label(i, n), Decimal(i), n, Decimal(j), m);
    DecimalRoundTrip(i);
    DecimalRoundTrip(j);
  }

  /** Different children get different labels: equal labels come from the
      same name, and, for a name that is not a number, the same position. */
  lemma LabelIdentifiesChild(i: nat, n: string, j: nat, m: string)
    requires Label(i, n) == Label(j, m)
    ensures n == m
    ensures !IsDigits(n) ==> i == j
  {
    if IsDigits(n) && IsDigits(m) {
      NumericLabelsIdentify(i, n, j, m);
    } else if IsDigits(n) {
      LabelOfNumericName(i, n);
      LabelOfOtherName(j, m);
    } else if IsDigits(m) {
      LabelOfOtherName(i, n);
      LabelOfNumericName(j, m);
    } else {
      OtherLabelsIdentify(i, n, j, m);
    }
  }
}
