/** Character and string mappings used by the parts backend: the ASCII
    instance of Python's `str.lower`, `str.capitalize` and of formatting a
    positive index with `f"{idx}"`. */
module Text {

  function LowerChar(c: char): char {
    if 'A' <= c <= 'Z' then (c as int - 'A' as int + 'a' as int) as char else c
  }

  function UpperChar(c: char): char {
    if 'a' <= c <= 'z' then (c as int - 'a' as int + 'A' as int) as char else c
  }

  predicate IsUpper(c: char) { 'A' <= c <= 'Z' }

  predicate IsLower(c: char) { 'a' <= c <= 'z' }

  /** `s.lower()`: every character mapped to lower case, none added or dropped. */
  function Lower(s: string): (r: string)
    ensures |r| == |s|
    ensures forall i :: 0 <= i < |s| ==> r[i] == LowerChar(s[i])
  {
    if s == [] then [] else [LowerChar(s[0])] + Lower(s[1..])
  }

  /** `s.capitalize()`: the first character upper case, the rest lower case. */
  function Capitalize(s: string): (r: string)
  {
    if s == [] then [] else [UpperChar(s[0])] + Lower(s[1..])
  }

  lemma {:induction false} CapitalizeShape(s: string)
    ensures |Capitalize(s)| == |s|
    ensures s != [] ==> Capitalize(s)[0] == UpperChar(s[0]) && !IsLower(Capitalize(s)[0])
    ensures forall i :: 1 <= i < |s| ==> Capitalize(s)[i] == LowerChar(s[i]) && !IsUpper(Capitalize(s)[i])
  {
    if s != [] {
      assert Capitalize(s)[1..] == Lower(s[1..]);
      forall i | 1 <= i < |s|
        ensures Capitalize(s)[i] == LowerChar(s[i])
      {
        assert Capitalize(s)[i] == Lower(s[1..])[i - 1];
      }
    }
  }

  lemma {:induction false} LowerIdempotent(s: string)
    ensures Lower(Lower(s)) == Lower(s)
  {
    assert forall i :: 0 <= i < |s| ==> Lower(Lower(s))[i] == Lower(s)[i];
  }

  /** Capitalizing a name does not change it under case-insensitive
      comparison: the stored name still clashes with exactly the names the
      submitted one clashed with. */
  lemma {:induction false} LowerOfCapitalize(s: string)
    ensures Lower(Capitalize(s)) == Lower(s)
  {
    CapitalizeShape(s);
    forall i | 0 <= i < |s|
      ensures Lower(Capitalize(s))[i] == Lower(s)[i]
    {
      if i == 0 {
        assert LowerChar(UpperChar(s[0])) == LowerChar(s[0]);
      }
    }
  }

  function DigitChar(d: nat): char
    requires d < 10
  {
    ('0' as int + d) as char
  }

  /** `f"{n}"` for a natural number: its decimal digits, most significant first. */
  function NatStr(n: nat): (r: string)
    ensures |r| >= 1
    ensures forall i :: 0 <= i < |r| ==> '0' <= r[i] <= '9'
    decreases n
  {
    if n < 10 then [DigitChar(n)] else NatStr(n / 10) + [DigitChar(n % 10)]
  }

  /** The number a string of decimal digits denotes. */
  function DecimalValue(s: string): nat
    requires forall i :: 0 <= i < |s| ==> '0' <= s[i] <= '9'
  {
    if s == [] then 0 else 10 * DecimalValue(s[..|s| - 1]) + (s[|s| - 1] as int - '0' as int)
  }

  /** Reading back the digits of `f"{n}"` gives `n`, so distinct indices get
      distinct labels. */
  lemma {:induction false} NatStrRoundTrip(n: nat)
    ensures DecimalValue(NatStr(n)) == n
  {
    if n >= 10 {
      NatStrRoundTrip(n / 10);
      var s := NatStr(n);
      assert s[..|s| - 1] == NatStr(n / 10);
    }
  }
}
