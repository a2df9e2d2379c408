/** The string operations the statistic parser uses: `String.prototype.trim`,
    the `[^0-9]` filter, and conversion of a digit string to its number. */
module Text {

  /** The characters `trim` removes: ECMAScript WhiteSpace (tab, vertical tab,
      form feed, space, no-break space, byte order mark and every Zs space)
      and LineTerminator (line feed, carriage return, U+2028, U+2029). */
  predicate IsTrimmable(c: char) {
    c == '\t' || c == '\n' || c == '\U{000B}' || c == '\U{000C}' || c == '\r'
    || c == ' ' || c == '\U{00A0}' || c == '\U{1680}'
    || ('\U{2000}' <= c <= '\U{200A}')
    || c == '\U{2028}' || c == '\U{2029}' || c == '\U{202F}' || c == '\U{205F}'
    || c == '\U{3000}' || c == '\U{FEFF}'
  }

  predicate AllTrimmable(s: string) {
    forall k :: 0 <= k < |s| ==> IsTrimmable(s[k])
  }

  /** The characters matched by the class `[0-9]`. */
  predicate IsDigit(c: char) {
    '0' <= c <= '9'
  }

  predicate AllDigits(s: string) {
    forall k :: 0 <= k < |s| ==> IsDigit(s[k])
  }

  /** The number of trimmable characters `s` starts with. */
  function TrimOffset(s: string): (n: nat)
    ensures n <= |s|
  {
    if |s| > 0 && IsTrimmable(s[0]) then 1 + TrimOffset(s[1..]) else 0
  }

  /** The leading run is trimmable and stops at the first non-trimmable
      character. */
  lemma {:induction false} TrimOffsetSpec(s: string)
    ensures AllTrimmable(s[..TrimOffset(s)])
    ensures TrimOffset(s) == |s| || !IsTrimmable(s[TrimOffset(s)])
  {
    if |s| > 0 && IsTrimmable(s[0]) {
      TrimOffsetSpec(s[1..]);
      var m := TrimOffset(s[1..]);
      assert s[..1 + m] == [s[0]] + s[1..][..m];
    }
  }

  /** The length of `s` once its trailing trimmable characters are cut off. */
  function TrimEndLength(s: string): (n: nat)
    ensures n <= |s|
  {
    if |s| > 0 && IsTrimmable(s[|s| - 1]) then TrimEndLength(s[..|s| - 1]) else |s|
  }

  /** What is cut off the end is trimmable, and what is kept ends with a
      non-trimmable character. */
  lemma {:induction false} TrimEndLengthSpec(s: string)
    ensures AllTrimmable(s[TrimEndLength(s)..])
    ensures TrimEndLength(s) == 0 || !IsTrimmable(s[TrimEndLength(s) - 1])
  {
    if |s| > 0 && IsTrimmable(s[|s| - 1]) {
      var init := s[..|s| - 1];
      TrimEndLengthSpec(init);
      var n := TrimEndLength(init);
      assert s[n..] == init[n..] + [s[|s| - 1]];
    }
  }

  /** `s.trim()`: what is left after removing trimmable characters from both
      ends. */
  function Trim(s: string): string {
    var t := s[TrimOffset(s)..];
    t[..TrimEndLength(t)]
  }

  /** The trimmed text is the infix of `s` that starts at `TrimOffset(s)`;
      what was cut off on either side is trimmable, and the result starts and
      ends with a non-trimmable character. */
  lemma TrimSpec(s: string)
    ensures TrimOffset(s) + |Trim(s)| <= |s|
    ensures s[TrimOffset(s)..TrimOffset(s) + |Trim(s)|] == Trim(s)
    ensures AllTrimmable(s[..TrimOffset(s)]) && AllTrimmable(s[TrimOffset(s) + |Trim(s)|..])
    ensures Trim(s) == [] || (!IsTrimmable(Trim(s)[0]) && !IsTrimmable(Trim(s)[|Trim(s)| - 1]))
  {
    var i := TrimOffset(s);
    var t := s[i..];
    var n := TrimEndLength(t);
    TrimOffsetSpec(s);
    TrimEndLengthSpec(t);
    assert s[i + n..] == t[n..];
    assert t[..n] == s[i..i + n];
    if n > 0 {
      assert t[0] == s[i];
    }
  }

  /** Trimming a string that is padded by trimmable characters on both sides
      gives back its core, provided the core does not itself start or end with
      one: this pins `Trim` down on every input. */
  lemma TrimOfPadded(pre: string, core: string, post: string)
    requires AllTrimmable(pre) && AllTrimmable(post)
    requires core == [] || (!IsTrimmable(core[0]) && !IsTrimmable(core[|core| - 1]))
    ensures Trim(pre + core + post) == core
  {
    var s := pre + core + post;
    if core == [] {
      assert s == pre + post;
      assert AllTrimmable(s);
      TrimOffsetOfTrimmable(s);
    } else {
      assert s == pre + (core + post);
      TrimOffsetOfPadded(pre, core + post);
      assert s[|pre|..] == core + post;
      TrimEndLengthOfPadded(core, post);
    }
  }

  lemma {:induction false} TrimOffsetOfTrimmable(s: string)
    requires AllTrimmable(s)
    ensures TrimOffset(s) == |s|
  {
    if |s| > 0 {
      assert AllTrimmable(s[1..]);
      TrimOffsetOfTrimmable(s[1..]);
    }
  }

  lemma {:induction false} TrimOffsetOfPadded(pre: string, rest: string)
    requires AllTrimmable(pre)
    requires rest != [] && !IsTrimmable(rest[0])
    ensures TrimOffset(pre + rest) == |pre|
  {
    if pre == [] {
      assert pre + rest == rest;
    } else {
      assert (pre + rest)[1..] == pre[1..] + rest;
      assert AllTrimmable(pre[1..]);
      TrimOffsetOfPadded(pre[1..], rest);
    }
  }

  lemma {:induction false} TrimEndLengthOfPadded(core: string, post: string)
    requires AllTrimmable(post)
    requires core != [] && !IsTrimmable(core[|core| - 1])
    ensures TrimEndLength(core + post) == |core|
  {
    if post == [] {
      assert core + post == core;
    } else {
      var n := |post| - 1;
      assert (core + post)[..|core + post| - 1] == core + post[..n];
      assert AllTrimmable(post[..n]);
      TrimEndLengthOfPadded(core, post[..n]);
    }
  }

  /** Trimming twice is trimming once. */
  lemma TrimIdempotent(s: string)
    ensures Trim(Trim(s)) == Trim(s)
  {
    var r := Trim(s);
    TrimSpec(s);
    assert r == [] + r + [];
    TrimOfPadded([], r, []);
  }

  /** `s.replace(/[^0-9]/g, '')`: the digits of `s`, in order. */
  function KeepDigits(s: string): (r: string)
    ensures AllDigits(r)
    ensures |r| <= |s|
  {
    if s == [] then []
    else (if IsDigit(s[0]) then [s[0]] else []) + KeepDigits(s[1..])
  }

  /** Filtering leaves a string unchanged exactly when it is all digits. */
  lemma {:induction false} KeepDigitsIdentity(s: string)
    ensures KeepDigits(s) == s <==> AllDigits(s)
  {
    if s != [] {
      KeepDigitsIdentity(s[1..]);
      if !IsDigit(s[0]) {
        assert |KeepDigits(s)| < |s|;
      }
    }
  }

  /** Filtering distributes over concatenation, so every non-digit is dropped
      wherever it stands and the digits keep their order. */
  lemma {:induction false} KeepDigitsAppend(a: string, b: string)
    ensures KeepDigits(a + b) == KeepDigits(a) + KeepDigits(b)
  {
    if a == [] {
      assert a + b == b;
    } else {
      var head := if IsDigit(a[0]) then [a[0]] else [];
      assert (a + b)[0] == a[0];
      assert (a + b)[1..] == a[1..] + b;
      assert KeepDigits(a + b) == head + KeepDigits(a[1..] + b);
      KeepDigitsAppend(a[1..], b);
      assert KeepDigits(a) == head + KeepDigits(a[1..]);
    }
  }

  /** A string without digits contributes nothing. */
  lemma {:induction false} KeepDigitsNone(s: string)
    requires forall k :: 0 <= k < |s| ==> !IsDigit(s[k])
    ensures KeepDigits(s) == []
  {
    if s != [] {
      KeepDigitsNone(s[1..]);
    }
  }

  /** Trimming removes no digit, so it does not change the digits kept. */
  lemma TrimKeepsDigits(s: string)
    ensures KeepDigits(Trim(s)) == KeepDigits(s)
  {
    var r := Trim(s);
    var i := TrimOffset(s);
    TrimSpec(s);
    var pre, post := s[..i], s[i + |r|..];
    assert s == pre + r + post;
    NoDigitInTrimmable(pre);
    NoDigitInTrimmable(post);
    KeepDigitsAppend(pre + r, post);
    KeepDigitsAppend(pre, r);
  }

  lemma NoDigitInTrimmable(s: string)
    requires AllTrimmable(s)
    ensures KeepDigits(s) == []
  {
    KeepDigitsNone(s);
  }

  /** The digits `KeepDigits` keeps are all zero exactly when every digit of
      the input is zero. */
  lemma {:induction false} KeepDigitsZeros(s: string)
    ensures (forall k :: 0 <= k < |KeepDigits(s)| ==> KeepDigits(s)[k] == '0')
        <==> (forall k :: 0 <= k < |s| && IsDigit(s[k]) ==> s[k] == '0')
  {
    if s != [] {
      KeepDigitsZeros(s[1..]);
      var head := if IsDigit(s[0]) then [s[0]] else [];
      assert KeepDigits(s) == head + KeepDigits(s[1..]);
      if forall k :: 0 <= k < |s| && IsDigit(s[k]) ==> s[k] == '0' {
        assert forall k :: 0 <= k < |s[1..]| && IsDigit(s[1..][k]) ==> s[1..][k] == '0' by {
          forall k | 0 <= k < |s[1..]| && IsDigit(s[1..][k]) ensures s[1..][k] == '0' {
            assert s[1..][k] == s[k + 1];
          }
        }
      }
      if forall k :: 0 <= k < |KeepDigits(s)| ==> KeepDigits(s)[k] == '0' {
        forall k | 0 <= k < |s| && IsDigit(s[k]) ensures s[k] == '0' {
          if k == 0 {
            assert KeepDigits(s)[0] == s[0];
          } else {
            assert s[k] == s[1..][k - 1];
            assert forall j :: 0 <= j < |KeepDigits(s[1..])| ==>
              KeepDigits(s[1..])[j] == KeepDigits(s)[|head| + j];
          }
        }
      }
    }
  }

  function DigitValue(c: char): (d: nat)
    requires IsDigit(c)
    ensures d < 10
  {
    (c as int) - ('0' as int)
  }

  /** `Number(ds)` for a decimal digit string, as an exact integer: the
      number the digits spell, most significant first. */
  function DecimalValue(ds: string): nat
    requires AllDigits(ds)
  {
    if ds == [] then 0
    else 10 * DecimalValue(ds[..|ds| - 1]) + DigitValue(ds[|ds| - 1])
  }

  /** A digit string spells zero exactly when all its digits are '0'
      (the empty string included). */
  lemma {:induction false} DecimalValueZero(ds: string)
    requires AllDigits(ds)
    ensures DecimalValue(ds) == 0 <==> forall k :: 0 <= k < |ds| ==> ds[k] == '0'
  {
    if ds != [] {
      var init := ds[..|ds| - 1];
      DecimalValueZero(init);
      assert forall k :: 0 <= k < |init| ==> init[k] == ds[k];
    }
  }

  function DigitChar(d: nat): (c: char)
    requires d < 10
    ensures IsDigit(c) && DigitValue(c) == d
  {
    ('0' as int + d) as char
  }

  /** The decimal spelling of `n`, without leading zeros. */
  function ToDecimal(n: nat): (ds: string)
    ensures AllDigits(ds) && ds != []
    ensures n > 0 ==> ds[0] != '0'
  {
    if n < 10 then [DigitChar(n)] else ToDecimal(n / 10) + [DigitChar(n % 10)]
  }

  /** Reading the decimal spelling of `n` gives `n` back. */
  lemma {:induction false} DecimalRoundTrip(n: nat)
    ensures DecimalValue(ToDecimal(n)) == n
  {
    var ds := ToDecimal(n);
    if n >= 10 {
      DecimalRoundTrip(n / 10);
      assert ds[..|ds| - 1] == ToDecimal(n / 10);
    }
  }
}
