/** Small vocabulary shared by the models. */
module Common {

  type byte = b: int | 0 <= b < 256

  type Bytes = seq<byte>

  datatype Option<+T> = None | Some(value: T)

  /** The least index at or after `from` that holds `d`, or |s| when there is none. */
  function FindFrom<T(==)>(s: seq<T>, d: T, from: nat): (k: nat)
    requires from <= |s|
    ensures from <= k <= |s|
    ensures forall i | from <= i < k :: s[i] != d
    ensures k < |s| ==> s[k] == d
    decreases |s| - from
  {
    if from == |s| || s[from] == d then from else FindFrom(s, d, from + 1)
  }

  predicate StartsWith(s: string, prefix: string) {
    |prefix| <= |s| && s[..|prefix|] == prefix
  }

  /** The two entries that readdir adds to every directory. */
  predicate IsDot(name: string) { name == "." || name == ".." }

  function Repeat<T>(x: T, n: nat): seq<T> { seq(n, i => x) }

  const DIGITS: string := "0123456789"

  /** The decimal notation that printf and ostream give a non-negative integer. */
  function Decimal(n: nat): (s: string)
    ensures s != ""
  {
    if n < 10 then [DIGITS[n]] else Decimal(n / 10) + [DIGITS[n % 10]]
  }

  function DigitValue(c: char): (v: nat)
    ensures v <= 36
  {
    if '0' <= c <= '9' then c as int - '0' as int
    else if 'a' <= c <= 'f' then c as int - 'a' as int + 10
    else if 'A' <= c <= 'F' then c as int - 'A' as int + 10
    else 36
  }

  function Digits(s: string, base: nat): Option<nat> {
    if s == "" then Some(0) else
      var high := Digits(s[..|s| - 1], base);
      var low := DigitValue(s[|s| - 1]);
      if high.Some? && low < base then Some(high.value * base + low) else None
  }

  lemma DigitsOneMore(s: string, c: char, high: nat)
    requires Digits(s, 10) == Some(high) && '0' <= c <= '9'
    ensures Digits(s + [c], 10) == Some(high * 10 + (c as int - '0' as int))
  {
    assert (s + [c])[..|s|] == s;
  }

  lemma {:induction false} DigitsOfDecimal(n: nat)
    ensures Digits(Decimal(n), 10) == Some(n)
    ensures forall i | 0 <= i < |Decimal(n)| :: '0' <= Decimal(n)[i] <= '9'
  {
    hide Digits;
    assert forall i | 0 <= i < 10 :: DIGITS[i] as int == '0' as int + i;
    if n < 10 {
      NoDigits();
      DigitsOneMore("", DIGITS[n], 0);
      assert "" + [DIGITS[n]] == [DIGITS[n]];
    } else {
      DigitsOfDecimal(n / 10);
      DigitsOneMore(Decimal(n / 10), DIGITS[n % 10], n / 10);
    }
  }

  lemma NoDigits()
    ensures Digits("", 10) == Some(0)
  {
  }

  // ---- Splitting ----

  /** The pieces of a string between the occurrences of a delimiter, empty ones included. */
  function Split(s: string, d: char): (tokens: seq<string>)
    ensures tokens != []
    decreases |s|
  {
    var k := FindFrom(s, d, 0);
    if k == |s| then [s] else [s[..k]] + Split(s[k + 1..], d)
  }

  lemma FindUnique(s: string, d: char, k: nat)
    requires k <= |s| && d !in s[..k] && (k < |s| ==> s[k] == d)
    ensures FindFrom(s, d, 0) == k
  {
    assert forall i | 0 <= i < k :: s[i] == s[..k][i];
  }

  lemma SplitHead(head: string, rest: string, d: char)
    requires d !in head
    ensures Split(head + [d] + rest, d) == [head] + Split(rest, d)
  {
    var s := head + [d] + rest;
    assert s[..|head|] == head;
    FindUnique(s, d, |head|);
    assert s[|head| + 1..] == rest;
  }

  lemma SplitWhole(s: string, d: char)
    requires d !in s
    ensures Split(s, d) == [s]
  {
    assert s[..|s|] == s;
    FindUnique(s, d, |s|);
  }

  lemma {:induction false} SplitHasNone(s: string, d: char)
    ensures forall t | t in Split(s, d) :: d !in t
    decreases |s|
  {
    var k := FindFrom(s, d, 0);
    if k < |s| { SplitHasNone(s[k + 1..], d); }
  }
}
