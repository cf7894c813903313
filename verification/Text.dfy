/** The string operations the proxy uses: searching, ASCII lower case, splitting, decimal numbers. */
module Text {

  datatype Option<T> = None | Some(value: T)

  // ----- searching -----

  /** The first occurrence of `c` at or after `from`; the length when there is none. */
  function IndexFrom(s: string, c: char, from: nat): (i: nat)
    requires from <= |s|
    ensures from <= i <= |s|
    ensures forall j :: from <= j < i ==> s[j] != c
    ensures i < |s| ==> s[i] == c
    decreases |s| - from
  {
    if from == |s| || s[from] == c then from else IndexFrom(s, c, from + 1)
  }

  /** `str::find`; the length when the character is absent. */
  function IndexOf(s: string, c: char): (i: nat)
    ensures i <= |s|
    ensures forall j :: 0 <= j < i ==> s[j] != c
    ensures i < |s| ==> s[i] == c
    ensures i < |s| <==> c in s
  {
    IndexFrom(s, c, 0)
  }

  /** The last occurrence of `c` before `to`; -1 when there is none. */
  function LastBefore(s: string, c: char, to: nat): (i: int)
    requires to <= |s|
    ensures -1 <= i < to
    ensures forall j :: i < j < to ==> s[j] != c
    ensures 0 <= i ==> s[i] == c
  {
    if to == 0 then -1 else if s[to - 1] == c then to - 1 else LastBefore(s, c, to - 1)
  }

  /** `str::rfind`; -1 when the character is absent. */
  function LastIndexOf(s: string, c: char): (i: int)
    ensures -1 <= i < |s|
    ensures forall j :: i < j < |s| ==> s[j] != c
    ensures 0 <= i ==> s[i] == c
    ensures 0 <= i <==> c in s
  {
    LastBefore(s, c, |s|)
  }

  predicate StartsWith(s: string, c: char) {
    s != [] && s[0] == c
  }

  predicate EndsWith(s: string, c: char) {
    s != [] && s[|s| - 1] == c
  }

  /** `s` contains `part` somewhere. */
  predicate Contains(s: string, part: string) {
    exists i :: 0 <= i <= |s| && part <= s[i..]
  }

  /** The first occurrence of a character is where a prefix free of it ends. */
  lemma IndexOfAppend(before: string, c: char, after: string)
    requires c !in before
    ensures IndexOf(before + [c] + after, c) == |before|
  {
    assert (before + [c] + after)[|before|] == c;
    assert forall j :: 0 <= j < |before| ==> (before + [c] + after)[j] == before[j];
  }

  lemma LastIndexOfAppend(before: string, c: char, after: string)
    requires c !in after
    ensures LastIndexOf(before + [c] + after, c) == |before|
  {
    var s := before + [c] + after;
    assert s[|before|] == c;
    assert forall j :: |before| < j < |s| ==> s[j] == after[j - |before| - 1];
  }

  // ----- lower case -----

  function LowerChar(c: char): char {
    if 'A' <= c <= 'Z' then c - 'A' + 'a' else c
  }

  /** By ASCII codes: capitals move by 32, all else stays. */
  lemma LowerCharCodes(c: char)
    ensures LowerChar(c) as int == if 65 <= c as int < 91 then c as int + 32 else c as int
  {
  }

  function Lower(s: string): (r: string)
    ensures |r| == |s|
    ensures forall i :: 0 <= i < |s| ==> r[i] == LowerChar(s[i])
  {
    seq(|s|, i requires 0 <= i < |s| => LowerChar(s[i]))
  }

  /** Lower-casing neither adds nor removes a character that is not a letter. */
  lemma LowerKeepsOthers(s: string, c: char)
    requires !('A' <= c <= 'Z') && !('a' <= c <= 'z')
    ensures c in Lower(s) <==> c in s
  {
  }

  // ----- splitting -----

  function Split(s: string, c: char): (parts: seq<string>)
    ensures parts != []
    ensures forall i :: 0 <= i < |parts| ==> c !in parts[i]
    decreases |s|
  {
    var i := IndexOf(s, c);
    if i == |s| then
      assert s[..i] == s;
      [s]
    else [s[..i]] + Split(s[i + 1..], c)
  }

  function Join(parts: seq<string>, c: char): string
    requires parts != []
  {
    if |parts| == 1 then parts[0] else parts[0] + [c] + Join(parts[1..], c)
  }

  lemma SplitOne(s: string, c: char)
    requires c !in s
    ensures Split(s, c) == [s]
  {
  }

  lemma SplitCons(before: string, c: char, after: string)
    requires c !in before
    ensures Split(before + [c] + after, c) == [before] + Split(after, c)
  {
    IndexOfAppend(before, c, after);
    var s := before + [c] + after;
    assert s[..|before|] == before && s[|before| + 1..] == after;
  }

  lemma {:induction false} JoinSplit(s: string, c: char)
    ensures Join(Split(s, c), c) == s
    decreases |s|
  {
    hide Split;
    var i := IndexOf(s, c);
    if i == |s| {
      SplitOne(s, c);
    } else {
      assert s == s[..i] + [c] + s[i + 1..];
      SplitCons(s[..i], c, s[i + 1..]);
      JoinSplit(s[i + 1..], c);
      assert ([s[..i]] + Split(s[i + 1..], c))[1..] == Split(s[i + 1..], c);
    }
  }

  lemma {:induction false} SplitJoin(parts: seq<string>, c: char)
    requires parts != []
    requires forall i :: 0 <= i < |parts| ==> c !in parts[i]
    ensures Split(Join(parts, c), c) == parts
    decreases |parts|
  {
    hide Split;
    if |parts| == 1 {
      SplitOne(parts[0], c);
    } else {
      SplitJoin(parts[1..], c);
      SplitCons(parts[0], c, Join(parts[1..], c));
    }
  }

  // ----- decimal numbers -----

  predicate IsDigit(c: char) {
    '0' <= c <= '9'
  }

  predicate AllDigits(s: string) {
    forall i :: 0 <= i < |s| ==> IsDigit(s[i])
  }

  function Digits(n: nat): (s: string)
    ensures s != [] && AllDigits(s)
  {
    if n < 10 then [n as char + '0'] else Digits(n / 10) + [(n % 10) as char + '0']
  }

  function Value(s: string): nat
    requires AllDigits(s)
  {
    if s == [] then 0 else Value(s[..|s| - 1]) * 10 + (s[|s| - 1] - '0') as nat
  }

  function Pow10(n: nat): nat {
    if n == 0 then 1 else 10 * Pow10(n - 1)
  }

  /** Positional: a digit counts its code less 48, times ten for each digit behind it. */
  lemma {:induction false} ValuePositional(s: string, t: string)
    requires AllDigits(s) && AllDigits(t)
    ensures AllDigits(s + t) && Value(s + t) == Value(s) * Pow10(|t|) + Value(t)
    ensures |t| == 1 ==> Value(t) == t[0] as int - 48
    decreases |t|
  {
    if t == "" {
      assert s + t == s;
    } else {
      ValueOfDigit(t[|t| - 1]);
      assert |t| == 1 ==> t == [t[0]];
      var init := t[..|t| - 1];
      ValuePositional(s, init);
      assert (s + t)[..|s + t| - 1] == s + init;
      TimesTen(Value(s), Pow10(|init|));
    }
  }

  lemma TimesTen(x: nat, y: nat)
    ensures x * (10 * y) == (x * y) * 10
  {
  }

  lemma ValueOfDigit(c: char)
    requires IsDigit(c)
    ensures Value([c]) == c as int - 48
  {
    assert [c][..0] == "";
  }

  /** A decimal form has no leading zero, but for zero itself. */
  lemma {:induction false} DigitsCanonical(n: nat)
    ensures Digits(n)[0] == '0' <==> n == 0
    ensures n == 0 ==> Digits(n) == "0"
  {
    if n >= 10 {
      DigitsCanonical(n / 10);
      assert Digits(n)[0] == Digits(n / 10)[0];
    }
  }

  lemma {:induction false} ValueOfDigits(n: nat)
    ensures Value(Digits(n)) == n
  {
    if n >= 10 {
      ValueOfDigits(n / 10);
      assert Digits(n)[..|Digits(n)| - 1] == Digits(n / 10);
    } else {
      assert Digits(n)[..0] == [];
    }
  }

  /** `str::parse::<u16>`: an optional plus sign and at least one digit, at most 65535. */
  function ParseU16(s: string): Option<nat> {
    var digits := if StartsWith(s, '+') then s[1..] else s;
    if digits != [] && AllDigits(digits) && Value(digits) <= 65535 then Some(Value(digits)) else None
  }

  function Zeros(n: nat): (s: string)
    ensures |s| == n && AllDigits(s)
  {
    if n == 0 then "" else Zeros(n - 1) + "0"
  }

  lemma {:induction false} ValueOfPadded(k: nat, digits: string)
    requires AllDigits(digits)
    ensures AllDigits(Zeros(k) + digits) && Value(Zeros(k) + digits) == Value(digits)
    decreases |digits|, k
  {
    var s := Zeros(k) + digits;
    if digits != "" {
      ValueOfPadded(k, digits[..|digits| - 1]);
      assert s[..|s| - 1] == Zeros(k) + digits[..|digits| - 1];
    } else if k > 0 {
      ValueOfPadded(k - 1, "");
      assert Zeros(k - 1) + "" == Zeros(k - 1) && s == Zeros(k) && s[..|s| - 1] == Zeros(k - 1);
    }
  }

  /** Every string of digits is the decimal form of its value behind some zeros. */
  lemma {:induction false} DigitsArePadded(s: string) returns (k: nat)
    requires s != "" && AllDigits(s)
    ensures s == Zeros(k) + Digits(Value(s))
    decreases |s|
  {
    var init, last := s[..|s| - 1], s[|s| - 1];
    var d := (last - '0') as nat;
    assert s == init + [last] && last == d as char + '0';
    if init == "" {
      k := 0;
      assert Value(s) == d;
    } else {
      k := DigitsArePadded(init);
      if Value(init) == 0 {
        k := k + 1;
        assert Digits(0) == "0";
      } else {
        assert Value(s) / 10 == Value(init) && Value(s) % 10 == d;
      }
    }
  }

  /** The decimal form of `n`, behind some zeros. */
  ghost predicate IsDecimalOf(s: string, n: nat) {
    exists k: nat :: s == Zeros(k) + Digits(n)
  }

  lemma DecimalIff(s: string, n: nat)
    ensures s != "" && AllDigits(s) && Value(s) == n <==> IsDecimalOf(s, n)
  {
    hide Value, Digits, Zeros;
    if s != "" && AllDigits(s) {
      var k := DigitsArePadded(s);
    }
    if k: nat :| s == Zeros(k) + Digits(n) {
      ValueOfPadded(k, Digits(n));
      ValueOfDigits(n);
    }
  }

  /** What `str::parse::<u16>` accepts for a number: its decimal form, behind any zeros and perhaps a
      plus sign, if it fits in 16 bits. */
  lemma ParseU16Iff(s: string, n: nat)
    ensures ParseU16(s) == Some(n)
       <==> n < 0x1_0000 && (IsDecimalOf(s, n) || (s != "" && s[0] == '+' && IsDecimalOf(s[1..], n)))
  {
    hide Value, IsDecimalOf;
    DecimalIff(s, n);
    if s != "" {
      DecimalIff(s[1..], n);
    }
  }
}
