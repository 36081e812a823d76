/** PrintNum of lib/print.c: a number is written backwards, padded, and reversed in place. */
module PrintNum {

  function DigitChar(d: nat, upcase: bool): char
    requires d < 16
  {
    if d <= 9 then '0' + (d as char) else if upcase then 'A' + ((d - 10) as char) else 'a' + ((d - 10) as char)
  }

  function DigitValue(c: char): (d: nat) {
    if '0' <= c <= '9' then (c as int) - ('0' as int)
    else if 'A' <= c <= 'F' then (c as int) - ('A' as int) + 10
    else if 'a' <= c <= 'f' then (c as int) - ('a' as int) + 10
    else 16
  }

  lemma DigitRoundTrip(d: nat, upcase: bool)
    requires d < 16
    ensures DigitValue(DigitChar(d, upcase)) == d && DigitChar(d, upcase) != '-' && DigitChar(d, upcase) != ' '
  {
  }

  lemma Shrinks(u: nat, base: nat)
    requires u > 0 && base >= 2
    ensures u / base < u
  {
    assert u == base * (u / base) + u % base;
  }

  /** The digits of u, lowest first; one digit for 0. */
  function LowFirst(u: nat, base: nat, upcase: bool): (s: seq<char>)
    requires 2 <= base <= 16
    ensures |s| > 0
  {
    var d := [DigitChar(u % base, upcase)];
    if u / base == 0 then d
    else
      Shrinks(u, base);
      d + LowFirst(u / base, base, upcase)
  }

  function Reversed(s: seq<char>): (r: seq<char>)
    ensures |r| == |s| && forall k | 0 <= k < |s| :: r[k] == s[|s| - 1 - k]
  {
    if s == [] then [] else Reversed(s[1..]) + [s[0]]
  }

  function Digits(u: nat, base: nat, upcase: bool): (s: seq<char>)
    requires 2 <= base <= 16
    ensures |s| > 0
  {
    Reversed(LowFirst(u, base, upcase))
  }

  function Copies(c: char, n: nat): (s: seq<char>)
    ensures |s| == n && forall k | 0 <= k < n :: s[k] == c
  {
    seq(n, _ => c)
  }

  function Max(a: int, b: int): int { if a < b then b else a }

  /** Digits and sign filled up: on the right with spaces, on the left with padc; the sign comes before
      padding zeros and after other padding. */
  function Shape(digits: seq<char>, neg: bool, fill: nat, ladjust: bool, padc: char): (s: seq<char>)
    ensures |s| == |digits| + fill + if neg then 1 else 0
  {
    var sign := if neg then ['-'] else [];
    if ladjust then sign + digits + Copies(' ', fill)
    else if padc == '0' then sign + Copies('0', fill) + digits
    else Copies(padc, fill) + sign + digits
  }

  /** What should be printed, in at least width characters. */
  function Format(u: nat, base: nat, neg: bool, width: int, ladjust: bool, padc: char, upcase: bool): (s: seq<char>)
    requires 2 <= base <= 16
    ensures |s| == Max(width, |Digits(u, base, upcase)| + if neg then 1 else 0)
  {
    var digits := Digits(u, base, upcase);
    var actual := |digits| + if neg then 1 else 0;
    Shape(digits, neg, Max(width, actual) - actual, ladjust, padc)
  }

  // ---- Reading it back ----

  /** The number that the leading digits of s continue, given what was read before. */
  function ReadDigits(s: seq<char>, base: nat, acc: nat): nat {
    if s == [] || DigitValue(s[0]) >= base then acc else ReadDigits(s[1..], base, acc * base + DigitValue(s[0]))
  }

  datatype Reading = Reading(neg: bool, value: nat)

  /** Skip spaces, take a sign, read digits. */
  function Read(s: seq<char>, base: nat): Reading {
    if s == [] then Reading(false, 0)
    else if s[0] == ' ' then Read(s[1..], base)
    else if s[0] == '-' then Reading(true, ReadDigits(s[1..], base, 0))
    else Reading(false, ReadDigits(s, base, 0))
  }

  lemma {:induction false} ReadSpaces(n: nat, rest: seq<char>, base: nat)
    ensures Read(Copies(' ', n) + rest, base) == Read(rest, base)
  {
    if n == 0 {
      assert Copies(' ', 0) + rest == rest;
    } else {
      assert (Copies(' ', n) + rest)[1..] == Copies(' ', n - 1) + rest;
      ReadSpaces(n - 1, rest, base);
    }
  }

  lemma {:induction false} ReadZeros(n: nat, rest: seq<char>, base: nat)
    requires base >= 2
    ensures ReadDigits(Copies('0', n) + rest, base, 0) == ReadDigits(rest, base, 0)
  {
    if n == 0 {
      assert Copies('0', 0) + rest == rest;
    } else {
      assert (Copies('0', n) + rest)[1..] == Copies('0', n - 1) + rest;
      ReadZeros(n - 1, rest, base);
    }
  }

  predicate Ends(rest: seq<char>, base: nat) {
    rest == [] || DigitValue(rest[0]) >= base
  }

  /** Reading one more character at the end. */
  lemma {:induction false} ReadOneMore(s: seq<char>, c: char, rest: seq<char>, base: nat, acc: nat)
    requires DigitValue(c) < base && Ends(rest, base) && forall k | 0 <= k < |s| :: DigitValue(s[k]) < base
    ensures ReadDigits(s + [c] + rest, base, acc) == ReadDigits(s, base, acc) * base + DigitValue(c)
  {
    var all := s + [c] + rest;
    if s == [] {
      assert all[0] == c && all[1..] == rest;
    } else {
      assert all[0] == s[0] && all[1..] == s[1..] + [c] + rest;
      ReadOneMore(s[1..], c, rest, base, acc * base + DigitValue(s[0]));
    }
  }

  predicate IsDigit(c: char, base: nat) {
    DigitValue(c) < base && c != '-' && c != ' '
  }

  lemma {:induction false} DigitsAreDigits(u: nat, base: nat, upcase: bool)
    requires 2 <= base <= 16
    ensures forall k | 0 <= k < |LowFirst(u, base, upcase)| :: IsDigit(LowFirst(u, base, upcase)[k], base)
    decreases u
  {
    hide DigitValue, DigitChar;
    DigitRoundTrip(u % base, upcase);
    if u / base != 0 {
      Shrinks(u, base);
      DigitsAreDigits(u / base, base, upcase);
    }
  }

  /** The digits of u are those of u / base and one more. */
  function Front(u: nat, base: nat, upcase: bool): seq<char>
    requires 2 <= base <= 16
  {
    if u / base == 0 then [] else Digits(u / base, base, upcase)
  }

  lemma DigitsSplit(u: nat, base: nat, upcase: bool)
    requires 2 <= base <= 16
    ensures Digits(u, base, upcase) == Front(u, base, upcase) + [DigitChar(u % base, upcase)]
    ensures forall k | 0 <= k < |Front(u, base, upcase)| :: DigitValue(Front(u, base, upcase)[k]) < base
  {
    hide DigitValue, DigitChar;
    DigitsAreDigits(u / base, base, upcase);
  }

  lemma {:induction false} ReadNumber(u: nat, base: nat, upcase: bool, rest: seq<char>)
    requires 2 <= base <= 16 && Ends(rest, base)
    ensures ReadDigits(Digits(u, base, upcase) + rest, base, 0) == u
    decreases u
  {
    hide DigitValue, DigitChar, Digits, ReadDigits;
    DigitRoundTrip(u % base, upcase);
    DigitsSplit(u, base, upcase);
    var front := Front(u, base, upcase);
    ReadOneMore(front, DigitChar(u % base, upcase), rest, base, 0);
    DivMod(u, base);
    if u / base == 0 {
      ReadNothing(base);
    } else {
      Shrinks(u, base);
      ReadNumber(u / base, base, upcase, []);
      assert front + [] == front;
    }
  }

  lemma DivMod(u: nat, base: nat)
    requires base >= 2
    ensures u == u / base * base + u % base && u % base < base
  {
  }

  lemma ReadNothing(base: nat)
    ensures ReadDigits([], base, 0) == 0
  {
  }

  lemma ReadShape(u: nat, base: nat, neg: bool, fill: nat, ladjust: bool, padc: char, upcase: bool)
    requires 2 <= base <= 16 && (ladjust || padc == ' ' || padc == '0')
    ensures Read(Shape(Digits(u, base, upcase), neg, fill, ladjust, padc), base) == Reading(neg, u)
  {
    hide Read, ReadDigits, Digits;
    var digits := Digits(u, base, upcase);
    assert Copies('0', 0) + digits == digits;
    if ladjust {
      ReadSigned(u, base, neg, 0, fill, upcase);
      assert ['-'] + digits + Copies(' ', fill) == ['-'] + (digits + Copies(' ', fill));
      assert [] + digits == digits;
    } else if padc == '0' {
      ReadSigned(u, base, neg, fill, 0, upcase);
      assert Copies('0', fill) + digits + Copies(' ', 0) == Copies('0', fill) + digits;
      assert ['-'] + Copies('0', fill) + digits == ['-'] + (Copies('0', fill) + digits);
      assert [] + Copies('0', fill) == Copies('0', fill);
    } else {
      ReadSigned(u, base, neg, 0, 0, upcase);
      assert digits + Copies(' ', 0) == digits;
      ReadSpaces(fill, Signed(neg, digits), base);
      assert Copies(' ', fill) + ['-'] + digits == Copies(' ', fill) + (['-'] + digits);
      assert Copies(' ', fill) + [] == Copies(' ', fill);
    }
  }

  /** Padding and sign aside, the output reads back as the number. */
  lemma FormatRoundTrip(u: nat, base: nat, neg: bool, width: int, ladjust: bool, padc: char, upcase: bool)
    requires 2 <= base <= 16 && (ladjust || padc == ' ' || padc == '0')
    ensures Read(Format(u, base, neg, width, ladjust, padc, upcase), base) == Reading(neg, u)
  {
    hide Read, Shape, Digits;
    var actual := |Digits(u, base, upcase)| + if neg then 1 else 0;
    ReadShape(u, base, neg, Max(width, actual) - actual, ladjust, padc, upcase);
  }

  /** Where everything stands: the digits at the right end, or behind the sign if the text is left-adjusted;
      the padding on the other side, and zeros between the sign and the digits. */
  lemma FormatLayout(u: nat, base: nat, neg: bool, width: int, ladjust: bool, padc: char, upcase: bool)
    requires 2 <= base <= 16
    ensures var f, d := Format(u, base, neg, width, ladjust, padc, upcase), Digits(u, base, upcase);
      var sign := if neg then 1 else 0; var fill := |f| - |d| - sign;
      && fill >= 0 && (fill > 0 ==> |f| == width)
      && (var at := if ladjust then sign else |f| - |d|; f[at..at + |d|] == d)
      && (neg ==> f[if ladjust || padc == '0' then 0 else fill] == '-')
      && (ladjust ==> forall k | sign + |d| <= k < |f| :: f[k] == ' ')
      && (!ladjust && padc == '0' ==> forall k | sign <= k < sign + fill :: f[k] == '0')
      && (!ladjust && padc != '0' ==> forall k | 0 <= k < fill :: f[k] == padc)
  {
    hide Digits;
  }

  /** No leading zero but for the number 0, and letters of the case that was asked for. */
  lemma {:induction false} DigitsAreNormal(u: nat, base: nat, upcase: bool)
    requires 2 <= base <= 16
    ensures var low := LowFirst(u, base, upcase);
      && (low[|low| - 1] == '0' ==> low == ['0'] && u == 0)
      && (forall k | 0 <= k < |low| :: '0' <= low[k] <= '9' || (if upcase then 'A' <= low[k] <= 'F' else 'a' <= low[k] <= 'f'))
    decreases u
  {
    if u / base != 0 {
      Shrinks(u, base);
      DigitsAreNormal(u / base, base, upcase);
    } else {
      assert u == u % base;
    }
  }

  lemma FormatIsNormal(u: nat, base: nat, upcase: bool)
    requires 2 <= base <= 16
    ensures var d := Digits(u, base, upcase);
      && (d[0] == '0' ==> d == ['0'] && u == 0)
      && (forall k | 0 <= k < |d| :: '0' <= d[k] <= '9' || (if upcase then 'A' <= d[k] <= 'F' else 'a' <= d[k] <= 'f'))
  {
    hide LowFirst;
    DigitsAreNormal(u, base, upcase);
  }

  function Signed(neg: bool, s: seq<char>): seq<char> { if neg then ['-'] + s else s }

  /** A sign, zeros, the digits, spaces. */
  lemma ReadSigned(u: nat, base: nat, neg: bool, zeros: nat, spaces: nat, upcase: bool)
    requires 2 <= base <= 16
    ensures Read(Signed(neg, Copies('0', zeros) + Digits(u, base, upcase) + Copies(' ', spaces)), base) == Reading(neg, u)
  {
    hide LowFirst, ReadDigits;
    var digits, tail := Digits(u, base, upcase), Copies(' ', spaces);
    var s := Copies('0', zeros) + digits + tail;
    DigitsAreDigits(u, base, upcase);
    assert IsDigit(digits[0], base);
    assert s[0] != ' ' && s[0] != '-';
    ReadNumber(u, base, upcase, tail);
    assert s == Copies('0', zeros) + (digits + tail);
    ReadZeros(zeros, digits + tail, base);
    assert neg ==> Signed(neg, s)[1..] == s;
  }

  // ---- The code ----

  /** The characters before the reversal, up to the width. */
  function Backward(low: seq<char>, neg: bool, fill: nat, ladjust: bool, padc: char): (s: seq<char>)
    ensures |s| == |low| + fill + if neg then 1 else 0
  {
    var sign := if neg then ['-'] else [];
    if ladjust then low + sign + Copies(' ', fill)
    else if neg && padc == '0' then low + Copies('0', fill) + sign
    else low + sign + Copies(padc, fill)
  }

  lemma ReversedConcat(a: seq<char>, b: seq<char>)
    ensures Reversed(a + b) == Reversed(b) + Reversed(a)
  {
  }

  lemma ReversedCopies(c: char, n: nat)
    ensures Reversed(Copies(c, n)) == Copies(c, n)
  {
  }

  /** Reversing the right part of it gives the shape wanted. */
  lemma BackwardReversed(low: seq<char>, neg: bool, fill: nat, ladjust: bool, padc: char)
    ensures var s := Backward(low, neg, fill, ladjust, padc); var actual := |low| + if neg then 1 else 0;
      Shape(Reversed(low), neg, fill, ladjust, padc) == Turned(s, actual, ladjust)
  {
    hide Copies, Reversed;
    var sign: seq<char> := if neg then ['-'] else [];
    assert Reversed(sign) == sign;
    if ladjust {
      ReversedConcat(low, sign);
      var s := low + sign + Copies(' ', fill);
      assert s[..|low| + |sign|] == low + sign && s[|low| + |sign|..] == Copies(' ', fill);
    } else {
      BackwardReversedLeft(low, neg, fill, padc);
    }
  }

  lemma BackwardReversedLeft(low: seq<char>, neg: bool, fill: nat, padc: char)
    ensures Shape(Reversed(low), neg, fill, false, padc) == Reversed(Backward(low, neg, fill, false, padc))
  {
    hide Copies, Reversed;
    var sign: seq<char> := if neg then ['-'] else [];
    var pad := Copies(padc, fill);
    assert Reversed(sign) == sign;
    ReversedCopies(padc, fill);
    if padc == '0' {
      ReversedConcat(low + pad, sign);
      ReversedConcat(low, pad);
      assert neg || low + sign + pad == low + pad + sign;
      assert sign + (pad + Reversed(low)) == sign + pad + Reversed(low);
    } else {
      ReversedConcat(low + sign, pad);
      ReversedConcat(low, sign);
      assert pad + (sign + Reversed(low)) == pad + sign + Reversed(low);
    }
  }

  /** PrintNum; width is its parameter length. */
  method Print(buf: array<char>, u: nat, base: nat, neg: bool, width: int, ladjust: bool, padc: char, upcase: bool)
      returns (length: int)
    requires 2 <= base <= 16 && |Format(u, base, neg, width, ladjust, padc, upcase)| <= buf.Length
    modifies buf
    ensures length == |Format(u, base, neg, width, ladjust, padc, upcase)|
    ensures buf[..length] == Format(u, base, neg, width, ladjust, padc, upcase)
    ensures buf[length..] == old(buf[length..])
  {
    hide *;
    FormatLength(u, base, neg, width, ladjust, padc, upcase);
    var actual;
    actual, length := WriteBackward(buf, u, base, neg, width, ladjust, padc, upcase);
    FormatIsReversal(u, base, neg, width, ladjust, padc, upcase);
    ReverseText(buf, actual, length, ladjust);
  }

  lemma FormatLength(u: nat, base: nat, neg: bool, width: int, ladjust: bool, padc: char, upcase: bool)
    requires 2 <= base <= 16
    ensures |Format(u, base, neg, width, ladjust, padc, upcase)| == Max(width, |LowFirst(u, base, upcase)| + if neg then 1 else 0)
    ensures |Format(u, base, neg, width, ladjust, padc, upcase)| >= |LowFirst(u, base, upcase)| + if neg then 1 else 0
  {
    hide LowFirst;
  }

  /** The characters up to length, with the first actual or with all of them reversed. */
  function Turned(s: seq<char>, actual: nat, ladjust: bool): seq<char>
    requires actual <= |s|
  {
    if ladjust then Reversed(s[..actual]) + s[actual..] else Reversed(s)
  }

  lemma FormatIsReversal(u: nat, base: nat, neg: bool, width: int, ladjust: bool, padc: char, upcase: bool)
    requires 2 <= base <= 16
    ensures var low := LowFirst(u, base, upcase); var actual := |low| + if neg then 1 else 0;
      var length := Max(width, actual);
      length >= actual &&
      Turned(Backward(low, neg, length - actual, ladjust, padc), actual, ladjust) == Format(u, base, neg, width, ladjust, padc, upcase)
  {
    hide LowFirst, Reversed, Copies, Shape, Backward, Turned;
    var low := LowFirst(u, base, upcase);
    var actual := |low| + if neg then 1 else 0;
    BackwardReversed(low, neg, Max(width, actual) - actual, ladjust, padc);
  }

  /** Digits, sign and padding, before the reversal. */
  method WriteBackward(buf: array<char>, u: nat, base: nat, neg: bool, width: int, ladjust: bool, padc: char, upcase: bool)
      returns (actual: nat, length: nat)
    requires 2 <= base <= 16
    requires Max(width, |LowFirst(u, base, upcase)| + if neg then 1 else 0) <= buf.Length
    modifies buf
    ensures actual == |LowFirst(u, base, upcase)| + (if neg then 1 else 0) && length == Max(width, actual)
    ensures buf[..length] == Backward(LowFirst(u, base, upcase), neg, length - actual, ladjust, padc)
    ensures buf[length..] == old(buf[length..])
  {
    hide LowFirst, Copies;
    ghost var low := LowFirst(u, base, upcase);
    var p := WriteLow(buf, u, base, upcase);
    if neg {
      buf[p] := '-';
      p := p + 1;
    }
    actual := p;
    assert buf[..actual] == if neg then low + ['-'] else low;
    length := if width < actual then actual else width;
    ghost var rest := buf[length..];
    assert rest == old(buf[length..]);
    var pad := if ladjust then ' ' else padc;
    if neg && !ladjust && pad == '0' {
      Fill(buf, actual - 1, length - 1, pad);
      buf[length - 1] := '-';
      assert buf[..length] == low + Copies('0', length - actual) + ['-'];
    } else {
      Fill(buf, actual, length, pad);
    }
    assert buf[length..] == rest;
  }

  lemma LowestFirst(u: nat, base: nat, upcase: bool)
    requires 2 <= base <= 16
    ensures var low := LowFirst(u, base, upcase);
      low[0] == DigitChar(u % base, upcase) && if u / base == 0 then low[1..] == [] else low[1..] == LowFirst(u / base, base, upcase)
    ensures u > 0 ==> u / base < u
  {
    hide DigitChar;
    if u > 0 { Shrinks(u, base); }
  }

  /** The first loop. */
  method WriteLow(buf: array<char>, u: nat, base: nat, upcase: bool) returns (p: nat)
    requires 2 <= base <= 16 && |LowFirst(u, base, upcase)| <= buf.Length
    modifies buf
    ensures p == |LowFirst(u, base, upcase)| && buf[..p] == LowFirst(u, base, upcase) && buf[p..] == old(buf[p..])
  {
    hide DigitChar, LowFirst;
    ghost var low := LowFirst(u, base, upcase);
    var rest: nat := u;
    p := 0;
    var more := true;
    while more
      invariant 0 <= p <= |low|
      invariant more ==> p < |low| && low[p..] == LowFirst(rest, base, upcase)
      invariant !more ==> p == |low|
      invariant forall k | 0 <= k < buf.Length :: buf[k] == if k < p then low[k] else old(buf[k])
      decreases more, rest
    {
      var tmp := rest % base;
      LowestFirst(rest, base, upcase);
      assert low[p] == low[p..][0];
      buf[p] := DigitChar(tmp, upcase);
      assert low[p + 1..] == low[p..][1..];
      p := p + 1;
      rest := rest / base;
      more := rest != 0;
    }
  }

  method Fill(buf: array<char>, from: nat, to: nat, c: char)
    requires from <= to <= buf.Length
    modifies buf
    ensures buf[..] == old(buf[..from]) + Copies(c, to - from) + old(buf[to..])
  {
    var i := from;
    while i < to
      invariant from <= i <= to
      invariant forall k | 0 <= k < buf.Length :: buf[k] == if from <= k < i then c else old(buf[k])
    {
      buf[i] := c;
      i := i + 1;
    }
  }

  /** The last part: the number alone, or the whole text, is reversed in place. */
  method ReverseText(buf: array<char>, actual: nat, length: nat, ladjust: bool)
    requires 0 < actual <= length <= buf.Length
    modifies buf
    ensures buf[..length] == Turned(old(buf[..length]), actual, ladjust)
    ensures buf[length..] == old(buf[length..])
  {
    var end := if ladjust then actual - 1 else length - 1;
    var b, e := 0, end;
    while e > b
      invariant 0 <= b <= e + 1 <= length && b + e == end
      invariant forall k | 0 <= k < buf.Length :: buf[k] == old(buf[if k < b || (e < k <= end) then end - k else k])
    {
      var tmp := buf[b];
      buf[b] := buf[e];
      buf[e] := tmp;
      b, e := b + 1, e - 1;
    }
    assert forall k | 0 <= k < length :: buf[k] == old(buf[if k <= end then end - k else k]);
    Turns(old(buf[..length]), buf[..length], actual, ladjust);
    assert forall k | length <= k < buf.Length :: buf[k] == old(buf[k]);
  }

  lemma Turns(before: seq<char>, after: seq<char>, actual: nat, ladjust: bool)
    requires 0 < actual <= |before| == |after|
    requires var end := if ladjust then actual - 1 else |before| - 1;
      forall k | 0 <= k < |before| :: after[k] == before[if k <= end then end - k else k]
    ensures after == Turned(before, actual, ladjust)
  {
  }
}
