/** Fund registry numbers (CNPJ): stripping the formatting characters, and the
    decimal parsing that `string_to_int` performs with Python's `int`. */
module Identifiers {
  import opened Wrappers

  /** The three formatting characters that `get_cnpj` removes. */
  predicate IsSeparator(c: char) {
    c == '/' || c == '.' || c == '-'
  }

  predicate NoSeparators(s: string) {
    forall i :: 0 <= i < |s| ==> !IsSeparator(s[i])
  }

  /** `str.replace(c, "", regex = False)`: every occurrence of `c` removed. */
  function StripChar(s: string, c: char): (r: string)
    ensures c !in r
    ensures forall x :: x in r ==> x in s
  {
    if s == [] then []
    else (if s[0] == c then [] else [s[0]]) + StripChar(s[1..], c)
  }

  /** The three chained replacements of `get_cnpj`: first `/`, then `.`, then `-`.
      A normalised CNPJ contains no separator and only characters of the input. */
  function Normalize(s: string): (r: string)
    ensures NoSeparators(r)
    ensures forall x :: x in r ==> x in s
  {
    StripChar(StripChar(StripChar(s, '/'), '.'), '-')
  }

  /** Reference definition: one pass that keeps every character that is not a separator. */
  function WithoutSeparators(s: string): string {
    if s == [] then []
    else (if IsSeparator(s[0]) then [] else [s[0]]) + WithoutSeparators(s[1..])
  }

  lemma {:induction false} StripCharAppend(a: string, b: string, c: char)
    ensures StripChar(a + b, c) == StripChar(a, c) + StripChar(b, c)
  {
    if a == [] {
      assert a + b == b;
    } else {
      var head := if a[0] == c then [] else [a[0]];
      assert (a + b)[0] == a[0];
      assert (a + b)[1..] == a[1..] + b;
      StripCharAppend(a[1..], b, c);
      calc {
        StripChar(a + b, c);
        head + StripChar(a[1..] + b, c);
        head + (StripChar(a[1..], c) + StripChar(b, c));
        (head + StripChar(a[1..], c)) + StripChar(b, c);
      }
    }
  }

  /** The chained replacements remove exactly the separators and keep every other
      character, in its original order. */
  lemma {:induction false} NormalizeKeepsOthersInOrder(s: string)
    ensures Normalize(s) == WithoutSeparators(s)
  {
    if s != [] {
      var h, t := [s[0]], s[1..];
      assert s == h + t;
      StripCharAppend(h, t, '/');
      StripCharAppend(StripChar(h, '/'), StripChar(t, '/'), '.');
      StripCharAppend(StripChar(StripChar(h, '/'), '.'), StripChar(StripChar(t, '/'), '.'), '-');
      NormalizeKeepsOthersInOrder(t);
    }
  }

  lemma {:induction false} WithoutSeparatorsHasNone(s: string)
    ensures NoSeparators(WithoutSeparators(s))
    ensures |WithoutSeparators(s)| <= |s|
  {
    if s != [] {
      WithoutSeparatorsHasNone(s[1..]);
    }
  }

  lemma {:induction false} WithoutSeparatorsFixesClean(s: string)
    requires NoSeparators(s)
    ensures WithoutSeparators(s) == s
  {
    if s != [] {
      WithoutSeparatorsFixesClean(s[1..]);
    }
  }

  /** Normalising twice is normalising once, and an identifier that is already
      plain digits is left as it is. */
  lemma NormalizeIdempotent(s: string)
    ensures Normalize(Normalize(s)) == Normalize(s)
    ensures NoSeparators(s) ==> Normalize(s) == s
  {
    NormalizeKeepsOthersInOrder(Normalize(s));
    WithoutSeparatorsFixesClean(Normalize(s));
    if NoSeparators(s) {
      NormalizeKeepsOthersInOrder(s);
      WithoutSeparatorsFixesClean(s);
    }
  }

  // ---------------------------------------------------------------------------
  // Decimal literals, as Python's int() reads them

  predicate IsDigit(c: char) {
    '0' <= c <= '9'
  }

  predicate IsDigits(s: string) {
    |s| > 0 && forall i :: 0 <= i < |s| ==> IsDigit(s[i])
  }

  function DigitValue(c: char): nat
    requires IsDigit(c)
  {
    c as int - '0' as int
  }

  /** The value of a string of decimal digits, most significant digit first. */
  function DigitsValue(s: string): nat
    requires forall i :: 0 <= i < |s| ==> IsDigit(s[i])
  {
    if s == [] then 0 else DigitsValue(s[..|s| - 1]) * 10 + DigitValue(s[|s| - 1])
  }

  /** `int(item)` on a string: an optional sign followed by decimal digits, or
      `None` for the ValueError Python raises on anything else. */
  function ParseInt(s: string): (r: Option<int>)
    ensures r.Some? <==> IsDigits(s) || (|s| > 1 && (s[0] == '+' || s[0] == '-') && IsDigits(s[1..]))
    ensures IsDigits(s) ==> r == Some(DigitsValue(s))
  {
    if IsDigits(s) then Some(DigitsValue(s) as int)
    else if |s| > 1 && s[0] == '+' && IsDigits(s[1..]) then Some(DigitsValue(s[1..]))
    else if |s| > 1 && s[0] == '-' && IsDigits(s[1..]) then Some(-(DigitsValue(s[1..]) as int))
    else None
  }

  /** `string_to_int`: every item parsed with `int`; the first item that is not a
      literal raises, which ends the whole conversion. */
  function StringToInt(items: seq<string>): (r: Option<seq<int>>)
    ensures r.Some? <==> forall i :: 0 <= i < |items| ==> ParseInt(items[i]).Some?
    ensures r.Some? ==> |r.value| == |items|
    ensures r.Some? ==> forall i :: 0 <= i < |items| ==> Some(r.value[i]) == ParseInt(items[i])
  {
    if items == [] then Some([])
    else
      match ParseInt(items[0])
      case None => None
      case Some(n) =>
        match StringToInt(items[1..])
        case None => None
        case Some(ns) => Some([n] + ns)
  }

  /** `str(n)` for a natural number: its decimal digits without leading zeros. */
  function Decimal(n: nat): (s: string)
    ensures IsDigits(s)
    decreases n
  {
    if n < 10 then [('0' as int + n) as char]
    else Decimal(n / 10) + [('0' as int + n % 10) as char]
  }

  /** Reading back what `str` wrote gives the number again. */
  lemma {:induction false} DecimalRoundTrip(n: nat)
    ensures ParseInt(Decimal(n)) == Some(n)
    decreases n
  {
    var s := Decimal(n);
    if n >= 10 {
      DecimalRoundTrip(n / 10);
      assert s[..|s| - 1] == Decimal(n / 10);
      assert DigitValue(s[|s| - 1]) == n % 10;
    } else {
      assert s[..|s| - 1] == [];
      assert DigitsValue(s) == n;
    }
  }

  /** A leading zero does not change the value: `int("007") == 7`, so the
      conversion loses the zeros that a registry number may start with. */
  lemma {:induction false} LeadingZeroLost(s: string)
    requires IsDigits(s)
    ensures IsDigits("0" + s) && DigitsValue("0" + s) == DigitsValue(s)
    decreases |s|
  {
    var z := "0" + s;
    if |s| > 1 {
      var p := s[..|s| - 1];
      assert z[..|z| - 1] == "0" + p;
      LeadingZeroLost(p);
    } else {
      assert z[..|z| - 1] == "0";
    }
  }

  /** `string_to_int(["007", "12"])` is `[7, 12]`: same length, each item's value,
      the leading zeros gone. */
  lemma StringToIntExample()
    ensures StringToInt(["007", "12"]) == Some([7, 12])
  {
    assert "007"[..2] == "00" && "00"[..1] == "0" && "0"[..0] == [];
    assert "12"[..1] == "1" && "1"[..0] == [];
    assert ParseInt("007") == Some(7);
    assert ParseInt("12") == Some(12);
    var r := StringToInt(["007", "12"]);
    assert r.Some? && |r.value| == 2 && r.value[0] == 7 && r.value[1] == 12;
    assert r.value == [7, 12];
  }
}
