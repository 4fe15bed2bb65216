/** Printing integers in any base and reading decimal integers back. */
module Itoa {
  import opened Common
  import opened Bits
  import opened Bytes

  /** The bases for which there are digits. */
  type Base = b: nat | 2 <= b <= 36 witness 10

  /** '0' to '9', then the letters. */
  function Digit(d: nat, upper: bool): Byte
    requires d < 36
  {
    if d <= 9 then d + 48 else d - 10 + (if upper then 65 else 97)
  }

  // --------------------------------------------------------------------------- printing

  /** The digit-count loop of `uimaxtoa`. */
  function Count(n: nat, b: Base): nat {
    if n == 0 then 0
    else
      Smaller(n, b);
      Count(n / b, b) + 1
  }

  lemma Smaller(n: nat, b: Base)
    requires n > 0
    ensures 0 <= n / b < n && 0 <= n % b < b && n == (n / b) * b + n % b
  {
    MulMono(2, b, n / b);
  }

  /** The writing loop of `uimaxtoa`, backwards from the last of `k` places: it stops when the
      places or the digits run out. */
  function Written(n: nat, b: Base, upper: bool, k: nat): (r: seq<Byte>)
    ensures |r| <= k
    decreases k
  {
    if n == 0 || k == 0 then []
    else
      Smaller(n, b);
      Written(n / b, b, upper, k - 1) + [Digit(n % b, upper)]
  }

  /** `uimaxtoa`: the characters it writes; a size of zero sets no limit. */
  function Uimaxtoa(n: nat, b: Base, upper: bool, size: nat): seq<Byte> {
    if n == 0 then [48]
    else Written(n, b, upper, if 0 < size < Count(n, b) then size else Count(n, b))
  }

  /** `imaxtoa`: the limit includes the sign. Without a limit `size - 1` wraps around to a
      number larger than any digit count. */
  function Imaxtoa(n: Long, b: Base, upper: bool, size: nat): seq<Byte> {
    if n >= 0 then Uimaxtoa(n, b, upper, size)
    else if size == 1 then [45]
    else [45] + Uimaxtoa(Unsigned(Negate(n)), b, upper, if size == 0 then 0xFFFF_FFFF else size - 1)
  }

  // ---------------------------------------------------------------------------- reading

  predicate IsSpace(c: Byte) {
    c == 32 || c == 10 || c == 12 || c == 13 || c == 9 || c == 118
  }

  predicate IsDigit(c: Byte) { 48 <= c <= 57 }

  /** The character at `i`, the terminator after the end. */
  function CharAt(s: seq<Byte>, i: nat): Byte { if i < |s| then s[i] else 0 }

  function SkipSpaces(s: seq<Byte>, i: nat): (r: nat)
    ensures r >= i
    decreases |s| - i
  {
    if i < |s| && IsSpace(s[i]) then SkipSpaces(s, i + 1) else i
  }

  /** Ten times a number, by two shifts. */
  function TenTimes(num: Long): Long {
    Wrap(Wrap(8 * num) + Wrap(2 * num))
  }

  /** The digit loop of `atol`. */
  function Digits(s: seq<Byte>, i: nat, num: Long): Long
    decreases |s| - i
  {
    if i < |s| && IsDigit(s[i]) then Digits(s, i + 1, Wrap(TenTimes(num) + (s[i] - 48))) else num
  }

  /** Where the digits start. */
  function Start(s: seq<Byte>): nat {
    var i := SkipSpaces(s, 0);
    if CharAt(s, i) == 43 || CharAt(s, i) == 45 then i + 1 else i
  }

  predicate Minus(s: seq<Byte>) {
    CharAt(s, SkipSpaces(s, 0)) == 45
  }

  /** `atol` */
  function Atol(s: seq<Byte>): Long {
    var num := Digits(s, Start(s), 0);
    if Minus(s) then Negate(num) else num
  }

  // ---------------------------------------------------------------------------- theory

  /** The value of one character as a digit. */
  function ValueOf(c: Byte): nat {
    if 48 <= c <= 57 then c - 48 else if 65 <= c <= 90 then c - 55 else if 97 <= c <= 122 then c - 87 else 0
  }

  /** The number that a text denotes in base `b`. */
  function Value(s: seq<Byte>, b: Base): nat {
    if s == [] then 0 else Value(s[..|s| - 1], b) * b + ValueOf(s[|s| - 1])
  }

  function Power(b: nat, k: nat): nat {
    if k == 0 then 1 else Power(b, k - 1) * b
  }

  lemma ValueSnoc(s: seq<Byte>, c: Byte, b: Base)
    ensures Value(s + [c], b) == Value(s, b) * b + ValueOf(c)
  {
    assert (s + [c])[..|s + [c]| - 1] == s;
  }

  /** The last `k` digits denote the number modulo the `k`-th power of the base. */
  lemma {:induction false} WrittenValue(n: nat, b: Base, upper: bool, k: nat)
    ensures Power(b, k) > 0 && Value(Written(n, b, upper, k), b) == n % Power(b, k)
    decreases k
  {
    PowerPos(b, k);
    if k == 0 {
    } else if n == 0 {
      assert 0 % Power(b, k) == 0;
    } else {
      Smaller(n, b);
      WrittenValue(n / b, b, upper, k - 1);
      ValueSnoc(Written(n / b, b, upper, k - 1), Digit(n % b, upper), b);
      ModStep(n, b, Power(b, k - 1));
    }
  }

  lemma {:induction false} PowerPos(b: Base, k: nat)
    ensures Power(b, k) > 0
  {
    if k > 0 { PowerPos(b, k - 1); }
  }

  lemma ModStep(n: nat, b: Base, p: nat)
    requires n > 0 && p > 0
    ensures p * b > 0 && n % (p * b) == (n / b % p) * b + n % b
  {
    Smaller(n, b);
    var m, d := n / b, n % b;
    var q, r := m / p, m % p;
    assert m == q * p + r;
    assert n == q * (p * b) + (r * b + d) by {
      assert (q * p + r) * b == q * (p * b) + r * b;
    }
    MulMono(r + 1, p, b);
    assert (r + 1) * b == r * b + b;
    DivUnique(n, p * b, q, r * b + d);
  }

  /** Below its digit count a number fills all places. */
  lemma {:induction false} WrittenFills(n: nat, b: Base, upper: bool, k: nat)
    requires k <= Count(n, b)
    ensures |Written(n, b, upper, k)| == k
    decreases k
  {
    if n > 0 && k > 0 {
      Smaller(n, b);
      WrittenFills(n / b, b, upper, k - 1);
    }
  }

  /** Fewer places give the end of what more places give. */
  lemma {:induction false} WrittenSuffix(n: nat, b: Base, upper: bool, k: nat, m: nat)
    requires k <= m <= Count(n, b)
    ensures |Written(n, b, upper, m)| == m
    ensures Written(n, b, upper, k) == Written(n, b, upper, m)[m - k..]
    decreases k
  {
    WrittenFills(n, b, upper, m);
    if n > 0 && k > 0 {
      Smaller(n, b);
      WrittenSuffix(n / b, b, upper, k - 1, m - 1);
      var w := Written(n / b, b, upper, m - 1);
      assert (w + [Digit(n % b, upper)])[m - k..] == w[m - k..] + [Digit(n % b, upper)];
    }
  }

  /** The digit count is the least number of digits that can hold the number. */
  lemma {:induction false} CountUpper(n: nat, b: Base)
    ensures n < Power(b, Count(n, b))
  {
    if n > 0 {
      Smaller(n, b);
      CountUpper(n / b, b);
      MulMono(n / b + 1, Power(b, Count(n / b, b)), b);
      assert (n / b + 1) * b == (n / b) * b + b;
    }
  }

  lemma {:induction false} CountLower(n: nat, b: Base)
    requires n > 0
    ensures Power(b, Count(n, b) - 1) <= n
  {
    Smaller(n, b);
    if n / b > 0 {
      CountLower(n / b, b);
      MulMono(Power(b, Count(n / b, b) - 1), n / b, b);
    }
  }

  /** The full text of a number denotes it, in every base and case; with a limit below the
      digit count exactly the last `size` digits are written. */
  lemma UimaxtoaIs(n: nat, b: Base, upper: bool, size: nat)
    ensures Value(Uimaxtoa(n, b, upper, 0), b) == n
    ensures 0 < size < Count(n, b) ==>
      var full := Uimaxtoa(n, b, upper, 0);
      |full| == Count(n, b) && Uimaxtoa(n, b, upper, size) == full[|full| - size..]
    ensures size >= Count(n, b) ==> Uimaxtoa(n, b, upper, size) == Uimaxtoa(n, b, upper, 0)
  {
    var c := Count(n, b);
    if n == 0 {
      assert [48][..0] == [];
      assert Value([48], b) == Value([48][..0], b) * b + 0;
    } else {
      WrittenValue(n, b, upper, c);
      CountUpper(n, b);
      DivUnique(n, Power(b, c), 0, n);
      if 0 < size < c { WrittenSuffix(n, b, upper, size, c); }
    }
  }

  /** The number that the digits from `i` on denote, after those that denote `num`. */
  function Denoted(s: seq<Byte>, i: nat, num: nat): nat
    decreases |s| - i
  {
    if i < |s| && IsDigit(s[i]) then Denoted(s, i + 1, 10 * num + (s[i] - 48)) else num
  }

  lemma TenTimesIs(num: Long, n: int, d: int)
    requires num == Wrap(n)
    ensures Wrap(TenTimes(num) + d) == Wrap(10 * n + d)
  {
    var a := WrapCuts(n);
    var b := WrapCuts(8 * num);
    var c := WrapCuts(2 * num);
    var e := WrapCuts(Wrap(8 * num) + Wrap(2 * num));
    WrapSame(10 * n + d, TenTimes(num) + d, 10 * a + b + c + e);
  }

  lemma {:induction false} DigitsWrap(s: seq<Byte>, i: nat, num: Long, n: nat)
    requires num == Wrap(n)
    ensures Digits(s, i, num) == Wrap(Denoted(s, i, n))
    decreases |s| - i
  {
    if i < |s| && IsDigit(s[i]) {
      TenTimesIs(num, n, s[i] - 48);
      DigitsWrap(s, i + 1, Wrap(TenTimes(num) + (s[i] - 48)), 10 * n + (s[i] - 48));
    }
  }

  /** The signed number that a text denotes. */
  function Meaning(s: seq<Byte>): int {
    var n: int := Denoted(s, Start(s), 0);
    if Minus(s) then -n else n
  }

  /** Every text is read as the number it denotes, modulo 2^32. */
  lemma AtolIs(s: seq<Byte>)
    ensures Atol(s) == Wrap(Meaning(s))
  {
    WrapId(0);
    DigitsWrap(s, Start(s), 0, 0);
    var n: int := Denoted(s, Start(s), 0);
    var k := WrapCuts(n);
    var v: int := Wrap(n);
    WrapSame(-v, -n, k);
  }

  /** Signed overflow, which ISO C leaves undefined, does not happen while reading. */
  predicate NoOverflow(s: seq<Byte>, i: nat, num: nat)
    decreases |s| - i
  {
    i < |s| && IsDigit(s[i]) ==>
      var num' := 10 * num + (s[i] - 48);
      num' < 0x8000_0000 && NoOverflow(s, i + 1, num')
  }

  /** Numbers only grow while they are read. */
  lemma {:induction false} OverflowIs(s: seq<Byte>, i: nat, num: nat)
    requires num < 0x8000_0000
    ensures NoOverflow(s, i, num) <==> Denoted(s, i, num) < 0x8000_0000
    decreases |s| - i
  {
    if i < |s| && IsDigit(s[i]) {
      var num' := 10 * num + (s[i] - 48);
      if num' < 0x8000_0000 { OverflowIs(s, i + 1, num'); } else { DenotedGrows(s, i + 1, num'); }
    }
  }

  lemma {:induction false} DenotedGrows(s: seq<Byte>, i: nat, num: nat)
    ensures Denoted(s, i, num) >= num
    decreases |s| - i
  {
    if i < |s| && IsDigit(s[i]) { DenotedGrows(s, i + 1, 10 * num + (s[i] - 48)); }
  }

  /** The digits of a number are read back one after the other. */
  lemma {:induction false} ReadBack(n: nat, k: nat, pre: seq<Byte>, post: seq<Byte>)
    requires Count(n, 10) <= k
    ensures Denoted(pre + Written(n, 10, false, k) + post, |pre|, 0)
      == Denoted(pre + Written(n, 10, false, k) + post, |pre| + |Written(n, 10, false, k)|, n)
    decreases k
  {
    var s := pre + Written(n, 10, false, k) + post;
    if n == 0 || k == 0 {
    } else {
      var w, d := Written(n / 10, 10, false, k - 1), Digit(n % 10, false);
      var post' := [d] + post;
      assert s == pre + w + post';
      ReadBack(n / 10, k - 1, pre, post');
      assert s[|pre| + |w|] == d;
    }
  }

  lemma Positive(n: nat)
    requires 0 < n
    ensures Start(Uimaxtoa(n, 10, false, 0)) == 0 && !Minus(Uimaxtoa(n, 10, false, 0))
    ensures Denoted(Uimaxtoa(n, 10, false, 0), 0, 0) == n
  {
    var k := Count(n, 10);
    var w := Written(n, 10, false, k);
    assert [] + w + [] == w;
    ReadBack(n, k, [], []);
    FirstDigit(n, k);
  }

  lemma Negative(x: Long, n: nat)
    requires 0 < n && x + n == 0
    ensures var s := Imaxtoa(x, 10, false, 0); Start(s) == 1 && Minus(s) && Denoted(s, 1, 0) == n
  {
    NegateUnsigned(x, n);
    var k := Count(n, 10);
    AnyCount(n, 10, 0xFFFF_FFFF);
    var w := Written(n, 10, false, k);
    assert [45] + w + [] == [45] + w;
    ReadBack(n, k, [45], []);
    assert ([45] + w)[0] == 45;
  }

  lemma ZeroRead()
    ensures var s := Imaxtoa(0, 10, false, 0); Start(s) == 0 && !Minus(s) && Denoted(s, 0, 0) == 0
  {
    assert Denoted([48], 0, 0) == Denoted([48], 1, 0);
  }

  /** The printed text denotes the number. */
  lemma PrintedMeaning(n: Long)
    ensures var s := Imaxtoa(n, 10, false, 0);
      var v: int := n;
      Meaning(s) == v && Denoted(s, Start(s), 0) == if v < 0 then -v else v
  {
    if n < 0 {
      Negative(n, 0 - n);
    } else if n > 0 {
      Positive(n);
    } else {
      ZeroRead();
    }
  }

  /** Every long survives printing and reading. */
  lemma RoundTrip(n: Long)
    ensures Atol(Imaxtoa(n, 10, false, 0)) == n
  {
    PrintedMeaning(n);
    AtolIs(Imaxtoa(n, 10, false, 0));
    WrapId(n);
  }

  /** Reading back overflows exactly for the smallest long. */
  lemma RoundTripDefined(n: Long)
    ensures var s := Imaxtoa(n, 10, false, 0); NoOverflow(s, Start(s), 0) <==> n != -0x8000_0000
  {
    PrintedMeaning(n);
    var s := Imaxtoa(n, 10, false, 0);
    OverflowIs(s, Start(s), 0);
  }

  lemma {:induction false} FirstDigit(n: nat, k: nat)
    requires n > 0 && k > 0
    ensures var w := Written(n, 10, false, k); |w| > 0 && IsDigit(w[0])
    decreases k
  {
    if n / 10 > 0 && k > 1 { FirstDigit(n / 10, k - 1); }
  }

  lemma {:induction false} AnyCount(n: nat, b: Base, m: nat)
    requires n <= m
    ensures Count(n, b) <= m
  {
    if n > 0 {
      Smaller(n, b);
      AnyCount(n / b, b, m - 1);
    }
  }

  // --------------------------------------------------------------- texts and their parts

  /** Letters come in the case asked for. */
  predicate InCase(c: Byte, upper: bool) {
    48 <= c <= 57 || if upper then 65 <= c <= 90 else 97 <= c <= 122
  }

  lemma {:induction false} WrittenCase(n: nat, b: Base, upper: bool, k: nat)
    ensures forall c :: c in Written(n, b, upper, k) ==> InCase(c, upper)
    decreases k
  {
    if n > 0 && k > 0 {
      Smaller(n, b);
      WrittenCase(n / b, b, upper, k - 1);
    }
  }

  function Magnitude(n: Long): nat {
    var v: int := n;
    if v < 0 then -v else v
  }

  /** A limit keeps the last digits. */
  lemma Limited(n: nat, b: Base, upper: bool, size: nat)
    requires size > 0
    ensures var digits := Uimaxtoa(n, b, upper, 0);
      Uimaxtoa(n, b, upper, size) == if |digits| <= size then digits else digits[|digits| - size..]
  {
    UimaxtoaIs(n, b, upper, size);
    if n > 0 { WrittenFills(n, b, upper, Count(n, b)); }
  }

  lemma FullText(n: nat, b: Base, upper: bool)
    requires n <= 0x8000_0000
    ensures var digits := Uimaxtoa(n, b, upper, 0);
      0 < |digits| < 0xFFFF_FFFF && Value(digits, b) == n && forall c :: c in digits ==> InCase(c, upper)
  {
    UimaxtoaIs(n, b, upper, 0);
    WrittenCase(n, b, upper, Count(n, b));
    if n > 0 {
      WrittenFills(n, b, upper, Count(n, b));
      AnyCount(n, b, n);
    }
  }

  /** The digits that fit behind the sign. */
  function Kept(digits: seq<Byte>, sign: nat, size: nat): seq<Byte>
    requires size == 0 || sign <= size
  {
    if size == 0 || sign + |digits| <= size then digits else digits[sign + |digits| - size..]
  }

  lemma NegativeIs(n: Long, b: Base, upper: bool, size: nat)
    requires n < 0
    ensures Imaxtoa(n, b, upper, size) == [45] + Kept(Uimaxtoa(Magnitude(n), b, upper, 0), 1, size)
  {
    var v := Magnitude(n);
    FullText(v, b, upper);
    NegateUnsigned(n, v);
    var digits := Uimaxtoa(v, b, upper, 0);
    if size == 1 {
      assert digits[|digits|..] == [];
    } else {
      Limited(v, b, upper, if size == 0 then 0xFFFF_FFFF else size - 1);
    }
  }

  /** Signed printing in every base and case: a minus sign exactly for negative numbers, then
      digits that denote the absolute value; a limit keeps the sign and the last digits. */
  lemma ImaxtoaIs(n: Long, b: Base, upper: bool, size: nat)
    ensures var digits := Uimaxtoa(Magnitude(n), b, upper, 0);
      && Value(digits, b) == Magnitude(n) && (forall c :: c in digits ==> InCase(c, upper))
      && Imaxtoa(n, b, upper, size) == if n < 0 then [45] + Kept(digits, 1, size) else Kept(digits, 0, size)
  {
    FullText(Magnitude(n), b, upper);
    if n < 0 {
      NegativeIs(n, b, upper, size);
    } else if size > 0 {
      Limited(n, b, upper, size);
    }
  }

  /** Characters that are skipped in front of a number. In place of the vertical tab it is the
      letter v. */
  predicate Blank(c: Byte) {
    (9 <= c <= 13 && c != 11) || c == 32 || c == 118
  }

  /** `s` is blanks, a sign or none, decimal digits, and something else. */
  ghost predicate Reads(s: seq<Byte>, blanks: seq<Byte>, sign: seq<Byte>, digits: seq<Byte>, rest: seq<Byte>) {
    && s == blanks + sign + digits + rest
    && (forall i :: 0 <= i < |blanks| ==> Blank(blanks[i])) && (sign == [] || sign == [43] || sign == [45])
    && (forall i :: 0 <= i < |digits| ==> 48 <= digits[i] <= 57)
    && (rest != [] ==> !(48 <= rest[0] <= 57))
    && (rest != [] && sign == [] && digits == [] ==> !Blank(rest[0]) && rest[0] != 43 && rest[0] != 45)
  }

  lemma {:induction false} SkipsTo(s: seq<Byte>, i: nat, j: nat)
    requires i <= j <= |s| && (forall k :: i <= k < j ==> Blank(s[k])) && (j < |s| ==> !Blank(s[j]))
    ensures SkipSpaces(s, i) == j
    decreases j - i
  {
    if i < j { SkipsTo(s, i + 1, j); }
  }

  lemma {:induction false} DenotesTo(s: seq<Byte>, i: nat, j: nat, b: Base)
    requires i <= j <= |s| && (forall k :: i <= k < j ==> 48 <= s[k] <= 57) && (j < |s| ==> !(48 <= s[j] <= 57))
    requires b == 10
    ensures forall k :: i <= k <= j ==> Denoted(s, i, 0) == Denoted(s, k, Value(s[i..k], b))
    decreases j - i
  {
    var k := i;
    assert s[i..i] == [];
    while k < j
      invariant i <= k <= j
      invariant forall m :: i <= m <= k ==> Denoted(s, i, 0) == Denoted(s, m, Value(s[i..m], b))
    {
      assert s[i..k + 1] == s[i..k] + [s[k]];
      ValueSnoc(s[i..k], s[k], b);
      k := k + 1;
    }
  }

  /** Where the parts lie. */
  lemma PartsAt(s: seq<Byte>, blanks: seq<Byte>, sign: seq<Byte>, digits: seq<Byte>, rest: seq<Byte>)
    requires Reads(s, blanks, sign, digits, rest)
    ensures var k := |blanks| + |sign|;
      var j := k + |digits|;
      && j <= |s| && s[k..j] == digits && (forall m :: k <= m < j ==> 48 <= s[m] <= 57)
      && (j < |s| ==> !(48 <= s[j] <= 57)) && (forall m :: 0 <= m < |blanks| ==> Blank(s[m]))
  {
    var k := |blanks| + |sign|;
    var j := k + |digits|;
    assert s[k..j] == digits;
    assert forall m :: k <= m < j ==> s[m] == digits[m - k];
    if j < |s| { assert s[j] == rest[0]; }
  }

  /** Every text is read as its sign and digits say, modulo 2^32. */
  lemma AtolReads(s: seq<Byte>, blanks: seq<Byte>, sign: seq<Byte>, digits: seq<Byte>, rest: seq<Byte>)
    requires Reads(s, blanks, sign, digits, rest)
    ensures var v: int := Value(digits, 10); Atol(s) == Wrap(if sign == [45] then -v else v)
  {
    PartsAt(s, blanks, sign, digits, rest);
    var i := |blanks|;
    if i < |s| { HeadIs(s, blanks, sign, digits, rest); }
    SkipsTo(s, 0, i);
    DenotesTo(s, i + |sign|, i + |sign| + |digits|, 10);
    AtolIs(s);
  }

  /** The character after the blanks. */
  lemma HeadIs(s: seq<Byte>, blanks: seq<Byte>, sign: seq<Byte>, digits: seq<Byte>, rest: seq<Byte>)
    requires Reads(s, blanks, sign, digits, rest) && |blanks| < |s|
    ensures var c := s[|blanks|];
      !Blank(c) && (sign == [] ==> c != 43 && c != 45) && (sign != [] ==> c == sign[0])
  {
    var c := s[|blanks|];
    if sign != [] {
      assert c == sign[0];
    } else if digits != [] {
      assert c == digits[0];
    } else {
      assert c == rest[0];
    }
  }

  lemma FourParts(s: seq<Byte>, i: nat, k: nat, j: nat)
    requires i <= k <= j <= |s|
    ensures s == s[..i] + s[i..k] + s[k..j] + s[j..]
  {
  }

  /** Every text can be taken apart so. */
  lemma ReadsAll(s: seq<Byte>)
      returns (blanks: seq<Byte>, sign: seq<Byte>, digits: seq<Byte>, rest: seq<Byte>)
    ensures Reads(s, blanks, sign, digits, rest)
  {
    var i := 0;
    while i < |s| && Blank(s[i])
      invariant i <= |s| && forall m :: 0 <= m < i ==> Blank(s[m])
    {
      i := i + 1;
    }
    var k := if i < |s| && (s[i] == 43 || s[i] == 45) then i + 1 else i;
    var j := k;
    while j < |s| && 48 <= s[j] <= 57
      invariant k <= j <= |s| && forall m :: k <= m < j ==> 48 <= s[m] <= 57
    {
      j := j + 1;
    }
    blanks, sign, digits, rest := s[..i], s[i..k], s[k..j], s[j..];
    FourParts(s, i, k, j);
    assert sign == if k == i then [] else [s[i]];
    assert forall m :: 0 <= m < |digits| ==> digits[m] == s[k + m];
    assert j < |s| ==> rest[0] == s[j];
  }
}
