/** Text shared by the models: Python's whitespace, `strip`, `join` and the part of
    case folding that the recognisers of this project can observe. */
module Strings {

  datatype Option<+T> = None | Some(value: T)

  /** The characters that `str.isspace`, `str.strip` and the class `\s` treat as whitespace. */
  predicate IsSpace(c: char) {
    || '\U{0009}' <= c <= '\U{000D}'
    || '\U{001C}' <= c <= '\U{0020}'
    || c == '\U{0085}' || c == '\U{00A0}' || c == '\U{1680}'
    || '\U{2000}' <= c <= '\U{200A}'
    || c == '\U{2028}' || c == '\U{2029}' || c == '\U{202F}' || c == '\U{205F}' || c == '\U{3000}'
  }

  predicate IsDigit(c: char) { '0' <= c <= '9' }

  predicate IsAsciiAlnum(c: char) {
    'a' <= c <= 'z' || 'A' <= c <= 'Z' || IsDigit(c)
  }

  /** Case folding onto ASCII letters. Besides A..Z only the long s and the Kelvin sign fold
      to an ASCII letter; every other character is left as it is. */
  function Fold(c: char): char {
    if 'A' <= c <= 'Z' then c + ('a' - 'A')
    else if c == '\U{017F}' then 's'
    else if c == '\U{212A}' then 'k'
    else c
  }

  /** `str.casefold()`. */
  function CaseFold(s: string): string {
    seq(|s|, i requires 0 <= i < |s| => Fold(s[i]))
  }

  /** `str.lower()`, which unlike case folding leaves the long s as it is. */
  function Lower(s: string): string {
    seq(|s|, i requires 0 <= i < |s| => if s[i] == '\U{017F}' then s[i] else Fold(s[i]))
  }

  function TrimLeft(s: string): string {
    if s != [] && IsSpace(s[0]) then TrimLeft(s[1..]) else s
  }

  function TrimRight(s: string): string {
    if s != [] && IsSpace(s[|s| - 1]) then TrimRight(s[..|s| - 1]) else s
  }

  /** Python's `str.strip()`. */
  function Strip(s: string): string {
    TrimRight(TrimLeft(s))
  }

  predicate StartsWith(s: string, prefix: string) { prefix <= s }

  predicate Contains(s: string, t: string) {
    t <= s || (s != [] && Contains(s[1..], t))
  }

  /** `"".join(parts)`, for texts and for lists alike. */
  function Join<T>(parts: seq<seq<T>>): seq<T> {
    if parts == [] then [] else parts[0] + Join(parts[1..])
  }

  /** `separator.join(parts)`. */
  function JoinWith(separator: string, parts: seq<string>): string {
    if |parts| == 0 then "" else if |parts| == 1 then parts[0]
    else parts[0] + separator + JoinWith(separator, parts[1..])
  }

  lemma JoinNothing<T>()
    ensures Join<T>([]) == []
  {
  }

  lemma {:induction false} JoinAppend<T>(a: seq<seq<T>>, b: seq<seq<T>>)
    ensures Join(a + b) == Join(a) + Join(b)
  {
    if a == [] {
      assert a + b == b;
    } else {
      assert (a + b)[1..] == a[1..] + b;
      JoinAppend(a[1..], b);
    }
  }

  lemma JoinSnoc<T>(a: seq<seq<T>>, x: seq<T>)
    ensures Join(a + [x]) == Join(a) + x
  {
    JoinAppend(a, [x]);
    assert Join([x]) == x + Join([]);
  }

  lemma {:induction false} TrimLeftSplit(s: string) returns (n: nat)
    ensures n <= |s| && TrimLeft(s) == s[n..]
    ensures forall i :: 0 <= i < n ==> IsSpace(s[i])
    ensures n < |s| ==> !IsSpace(s[n])
  {
    hide IsSpace;
    n := 0;
    if s != [] && IsSpace(s[0]) {
      n := TrimLeftSplit(s[1..]);
      assert s[1..][n..] == s[n + 1..];
      forall i | 0 <= i < n + 1 ensures IsSpace(s[i]) {
        if i > 0 { assert IsSpace(s[1..][i - 1]); }
      }
      n := n + 1;
    }
  }

  lemma {:induction false} TrimRightSplit(s: string) returns (n: nat)
    ensures n <= |s| && TrimRight(s) == s[..n]
    ensures forall i :: n <= i < |s| ==> IsSpace(s[i])
    ensures n > 0 ==> !IsSpace(s[n - 1])
  {
    hide IsSpace;
    n := |s|;
    if s != [] && IsSpace(s[|s| - 1]) {
      var r := s[..|s| - 1];
      n := TrimRightSplit(r);
      assert r[..n] == s[..n];
      forall i | n <= i < |s| ensures IsSpace(s[i]) {
        if i < |r| { assert IsSpace(r[i]); }
      }
    }
  }

  predicate Trimmed(s: string) {
    s == [] || (!IsSpace(s[0]) && !IsSpace(s[|s| - 1]))
  }

  lemma StripTrimmed(s: string)
    ensures Trimmed(Strip(s))
    ensures Trimmed(s) ==> Strip(s) == s
  {
    hide IsSpace;
    var t := TrimLeft(s);
    var m := TrimLeftSplit(s);
    var n := TrimRightSplit(t);
    if n > 0 { assert t[..n][0] == t[0] == s[m]; }
    if Trimmed(s) { assert s[0..] == s && t[..|t|] == t; }
  }

  lemma StripIdempotent(s: string)
    ensures Strip(Strip(s)) == Strip(s)
  {
    StripTrimmed(s);
    StripTrimmed(Strip(s));
  }

  lemma StripKeepsVisible(s: string, i: nat)
    requires i < |s| && !IsSpace(s[i])
    ensures Strip(s) != ""
  {
    hide IsSpace;
    var n := TrimLeftSplit(s);
    var t := TrimLeft(s);
    assert t[i - n] == s[i];
    var m := TrimRightSplit(t);
  }

  /** Decimal rendering of a natural number, `str(n)`. */
  function Decimal(n: nat): (s: string)
    ensures s != [] && forall c :: c in s ==> IsDigit(c)
  {
    var digit := ['0' + (n % 10) as char];
    if n < 10 then digit else Decimal(n / 10) + digit
  }

  lemma {:induction false} DecimalInjective(m: nat, n: nat)
    requires Decimal(m) == Decimal(n)
    ensures m == n
  {
    var a, b := Decimal(m), Decimal(n);
    assert a[|a| - 1] == b[|b| - 1];
    assert '0' + (m % 10) as char == '0' + (n % 10) as char;
    assert m >= 10 <==> n >= 10;
    if m >= 10 {
      assert a[..|a| - 1] == Decimal(m / 10) && b[..|b| - 1] == Decimal(n / 10);
      DecimalInjective(m / 10, n / 10);
    }
  }

  lemma {:induction false} DecimalLengthMonotone(m: nat, n: nat)
    requires m <= n
    ensures |Decimal(m)| <= |Decimal(n)|
  {
    if m >= 10 { DecimalLengthMonotone(m / 10, n / 10); }
  }

  /** The number that the digits denote. */
  function ValueOf(digits: string): nat
    requires forall c :: c in digits ==> IsDigit(c)
  {
    if digits == "" then 0
    else
      var last := digits[|digits| - 1];
      assert IsDigit(last);
      10 * ValueOf(digits[..|digits| - 1]) + (last as int - '0' as int)
  }

  lemma {:induction false} DecimalDenotes(n: nat)
    ensures ValueOf(Decimal(n)) == n
    ensures n > 0 ==> Decimal(n)[0] != '0'
  {
    var d := Decimal(n);
    var digit := '0' + (n % 10) as char;
    assert d[|d| - 1] == digit;
    if n >= 10 {
      DecimalDenotes(n / 10);
      assert d[..|d| - 1] == Decimal(n / 10) && d[0] == Decimal(n / 10)[0];
    } else {
      assert d[..|d| - 1] == "" && ValueOf("") == 0;
    }
  }

  predicate NoDigits(s: string) { forall c :: c in s ==> !IsDigit(c) }

  predicate AllWhite(s: string) { forall c :: c in s ==> IsSpace(c) }

  lemma WhiteInside(s: string, i: nat, j: nat)
    requires i <= j <= |s| && forall k :: i <= k < j ==> IsSpace(s[k])
    ensures AllWhite(s[i..j])
  {
    hide IsSpace;
  }

  /** Stripping takes away whitespace on both sides and nothing else. */
  lemma StripIs(s: string) returns (left: string, right: string)
    ensures s == left + Strip(s) + right && AllWhite(left) && AllWhite(right) && Trimmed(Strip(s))
  {
    hide IsSpace, AllWhite, TrimLeft, TrimRight;
    var n := TrimLeftSplit(s);
    var t := TrimLeft(s);
    var m := TrimRightSplit(t);
    left, right := s[0..n], t[m..|t|];
    WhiteInside(s, 0, n);
    WhiteInside(t, m, |t|);
    StripTrimmed(s);
    assert s == left + t && t == Strip(s) + right;
  }

  lemma {:induction false} ContainsMiddle(a: string, b: string, c: string)
    ensures Contains(a + b + c, b)
  {
    if a == "" {
      assert a + b + c == b + c;
    } else {
      assert (a + b + c)[1..] == a[1..] + b + c;
      ContainsMiddle(a[1..], b, c);
    }
  }

  lemma {:induction false} Around(s: string, t: string) returns (a: string, b: string)
    requires Contains(s, t)
    ensures s == a + t + b
  {
    if t <= s {
      a, b := "", s[|t|..];
    } else {
      a, b := Around(s[1..], t);
      a := [s[0]] + a;
    }
  }

  /** A text contains another exactly when it stands somewhere in it. */
  lemma ContainsIff(s: string, t: string)
    ensures Contains(s, t) <==> exists a, b :: s == a + t + b
  {
    hide Contains;
    if Contains(s, t) { var a, b := Around(s, t); }
    if a, b :| s == a + t + b { ContainsMiddle(a, t, b); }
  }
}
