/** The conversions as they run: digits are counted, then written backwards into the buffer. */
module ItoaOps {
  import opened Common
  import opened Bits
  import opened Bytes
  import opened Itoa

  /** The digit-count loop. */
  method CountDigits(integer: nat, b: Base) returns (digits: nat)
    ensures digits == Count(integer, b)
  {
    var n: nat := integer;
    digits := 0;
    while n > 0
      invariant digits + Count(n, b) == Count(integer, b)
    {
      Smaller(n, b);
      n := n / b;
      digits := digits + 1;
    }
  }

  lemma OneDigit(n: nat, b: Base, upper: bool, k: nat, done: seq<Byte>, c: Byte)
    requires n > 0 && 0 < k <= Count(n, b) && 0 <= n / b && 0 <= n % b < b && c == Digit(n % b, upper)
    ensures Written(n, b, upper, k) + done == Written(n / b, b, upper, k - 1) + ([c] + done)
    ensures k - 1 <= Count(n / b, b)
  {
    var w := Written(n / b, b, upper, k - 1);
    assert w + [c] + done == w + ([c] + done);
  }

  /** The writing loop: fills the places `at` to `at + digits` from the end. */
  method WriteDigits(buf: array<Byte>, at: nat, integer: nat, b: Base, upper: bool, digits: nat)
    requires at + digits <= buf.Length && digits <= Count(integer, b)
    modifies buf
    ensures buf[..] == Patch(old(buf[..]), at, Written(integer, b, upper, digits))
  {
    ghost var was := buf[..];
    ghost var done: seq<Byte> := [];
    ghost var total := Written(integer, b, upper, digits);
    var n: nat, k: nat := integer, digits;
    while n != 0 && k > 0
      invariant k <= Count(n, b) && |done| == digits - k
      invariant total == Written(n, b, upper, k) + done
      invariant buf[..] == Patch(was, at + k, done)
    {
      Smaller(n, b);
      var c := Digit(n % b, upper);
      OneDigit(n, b, upper, k, done, c);
      PatchFront(was, at + k - 1, c, done);
      ghost var now := buf[..];
      buf[at + k - 1] := c;
      assert buf[..] == now[at + k - 1 := c];
      n, k, done := n / b, k - 1, [c] + done;
    }
    assert k == 0 && total == done;
  }

  /** `uimaxtoa` into `buf` from place `at` on; without a buffer, the length of the whole text. */
  method PrintUnsigned(buf: array?<Byte>, at: nat, integer: nat, b: Base, upper: bool, size: nat) returns (n: nat)
    requires buf != null ==> at + |Uimaxtoa(integer, b, upper, size)| <= buf.Length
    modifies buf
    ensures buf == null ==> n == |Uimaxtoa(integer, b, upper, 0)|
    ensures buf != null ==> n == |Uimaxtoa(integer, b, upper, size)|
    ensures buf != null ==> buf[..] == Patch(old(buf[..]), at, Uimaxtoa(integer, b, upper, size))
  {
    var digits := CountDigits(integer, b);
    WrittenFills(integer, b, upper, digits);
    if buf == null {
      return if integer == 0 then 1 else digits;
    }
    if integer == 0 {
      ghost var was := buf[..];
      buf[at] := 48;
      assert buf[..] == was[at := 48];
      return 1;
    }
    if size > 0 && digits > size {
      digits := size;
    }
    WrittenFills(integer, b, upper, digits);
    WriteDigits(buf, at, integer, b, upper, digits);
    n := digits;
  }

  /** `imaxtoa` into `buf` from its start on; without a buffer, the length of the whole text. */
  method PrintSigned(buf: array?<Byte>, integer: Long, b: Base, upper: bool, size: nat) returns (n: nat)
    requires buf != null ==> |Imaxtoa(integer, b, upper, size)| <= buf.Length
    modifies buf
    ensures buf == null ==> n == |Imaxtoa(integer, b, upper, 0)|
    ensures buf != null ==> n == |Imaxtoa(integer, b, upper, size)|
    ensures buf != null ==> buf[..] == Patch(old(buf[..]), 0, Imaxtoa(integer, b, upper, size))
  {
    if integer >= 0 {
      n := PrintUnsigned(buf, 0, integer, b, upper, size);
      return;
    }
    var value := Unsigned(Negate(integer));
    if buf == null {
      AnyCount(value, b, 0xFFFF_FFFF);
      n := PrintUnsigned(null, 0, value, b, upper, size);
      return n + 1;
    }
    ghost var was := buf[..];
    buf[0] := 45;
    assert buf[..] == was[0 := 45];
    if size == 1 {
      return 1;
    }
    ghost var text := Uimaxtoa(value, b, upper, if size == 0 then 0xFFFF_FFFF else size - 1);
    assert ([45] + text)[1..] == text;
    n := PrintUnsigned(buf, 1, value, b, upper, if size == 0 then 0xFFFF_FFFF else size - 1);
    n := n + 1;
  }

  /** The loop over white space. */
  method SkipBlanks(s: seq<Byte>) returns (i: nat)
    ensures i == SkipSpaces(s, 0) && i <= |s|
  {
    i := 0;
    while i < |s| && IsSpace(s[i])
      invariant i <= |s| && SkipSpaces(s, 0) == SkipSpaces(s, i)
    {
      i := i + 1;
    }
  }

  /** The digit loop: ten times the number by two shifts, plus the digit. */
  method ReadDigits(s: seq<Byte>, from: nat) returns (num: Long)
    ensures num == Digits(s, from, 0)
  {
    var i := from;
    num := 0;
    while i < |s| && IsDigit(s[i])
      invariant Digits(s, from, 0) == Digits(s, i, num)
      decreases |s| - i
    {
      num := TenTimes(num);
      num := Wrap(num + (s[i] - 48));
      i := i + 1;
    }
  }

  /** `atol` */
  method Parse(s: seq<Byte>) returns (num: Long)
    ensures num == Atol(s) == Wrap(Meaning(s))
  {
    AtolIs(s);
    var i := SkipBlanks(s);
    var c := CharAt(s, i);
    num := ReadDigits(s, if c == 43 || c == 45 then i + 1 else i);
    if c == 45 {
      num := Negate(num);
    }
  }
}
