// The number formatting and parsing of the serial module (utility/cos_ser.c).
// serPutc appends a character to the port's output, serGetc takes the next
// character of its input; the writers and readers are modelled on top of those
// two primitives, loop for loop. Running out of input stands for the place
// where the C code would wait in getchar for the next character.

module Ser {
  import opened CosTypes

  const CR: char := '\r'
  const NUL: char := '\0'

  // ---------------------------------------------------------------------------
  // Characters

  predicate IsDigit(c: char) { '0' <= c <= '9' }

  predicate IsHexDigit(c: char)
  {
    IsDigit(c) || 'A' <= c <= 'F' || 'a' <= c <= 'f'
  }

  /** `letter - '0'` for a decimal digit. */
  function DigitValue(c: char): (d: nat)
    requires IsDigit(c)
    ensures d < 10
  {
    c as int - 0x30
  }

  /** The weight of a hex digit, upper or lower case, as serInUint16Hex reads it. */
  function HexDigitValue(c: char): (d: nat)
    requires IsHexDigit(c)
    ensures d < 16
  {
    if IsDigit(c) then c as int - 0x30
    else if 'A' <= c <= 'F' then c as int - 0x37
    else c as int - 0x57
  }

  /** `(x % 10) + 0x30`: the digit that stands for `d`. */
  function DigitChar(d: nat): (c: char)
    requires d < 10
    ensures IsDigit(c) && DigitValue(c) == d
  {
    (d + 0x30) as char
  }

  /** The digit the hex writers emit for a nibble: 0-9, then upper-case A-F. */
  function HexChar(d: nat): (c: char)
    requires d < 16
    ensures IsHexDigit(c) && HexDigitValue(c) == d
    ensures !('a' <= c <= 'f')
  {
    if d < 10 then (d + 0x30) as char else (d + 0x37) as char
  }

  /** `(x >> 7) + '0'` for a single bit. */
  function BitChar(b: nat): (c: char)
    requires b < 2
    ensures (c == '1') == (b == 1) && (c == '0') == (b == 0)
  {
    (b + 0x30) as char
  }

  // ---------------------------------------------------------------------------
  // Fixed-width binary and hex texts

  function Pow2(k: nat): (p: nat)
    ensures p >= 1
  {
    if k == 0 then 1 else 2 * Pow2(k - 1)
  }

  function Pow16(k: nat): (p: nat)
    ensures p >= 1
  {
    if k == 0 then 1 else 16 * Pow16(k - 1)
  }

  function Pow10(k: nat): (p: nat)
    ensures p >= 1
  {
    if k == 0 then 1 else 10 * Pow10(k - 1)
  }

  /** `x >> k`. */
  function ShiftBits(x: nat, k: nat): nat
  {
    if k == 0 then x else ShiftBits(x / 2, k - 1)
  }

  /** `x >> 4*k`: drops the `k` lowest nibbles. */
  function ShiftNibbles(x: nat, k: nat): nat
  {
    if k == 0 then x else ShiftNibbles(x / 16, k - 1)
  }

  /** The `k` lowest bits of `x` as '0'/'1' characters. */
  function BinText(x: nat, k: nat): (s: seq<char>)
    ensures |s| == k
    ensures forall i :: 0 <= i < k ==> s[i] == BitChar(ShiftBits(x, k - 1 - i) % 2)
  {
    if k == 0 then [] else BinText(x / 2, k - 1) + [BitChar(x % 2)]
  }

  /** The `k` lowest nibbles of `x` as hex digits, leading zeros kept. */
  function HexText(x: nat, k: nat): (s: seq<char>)
    ensures |s| == k
    ensures forall i :: 0 <= i < k ==> s[i] == HexChar(ShiftNibbles(x, k - 1 - i) % 16)
  {
    if k == 0 then [] else HexText(x / 16, k - 1) + [HexChar(x % 16)]
  }

  /** The value of a string of '0'/'1' characters read most significant first. */
  function BitsFrom(v: nat, s: seq<char>): nat
    decreases |s|
  {
    if s == [] then v else BitsFrom(2 * v + (if s[0] == '1' then 1 else 0), s[1..])
  }

  /**
   * The value serInUint16Hex accumulates from `s`: each hex digit shifts in
   * one nibble (`val = (val<<4) + digit`), other characters leave it alone.
   */
  function HexFrom(v: nat, s: seq<char>): nat
    decreases |s|
  {
    if s == [] then v else HexFrom(HexStep(v, s[0]), s[1..])
  }

  function HexStep(v: nat, c: char): nat
  {
    if IsHexDigit(c) then 16 * v + HexDigitValue(c) else v
  }

  function HexValue(s: seq<char>): nat { HexFrom(0, s) }

  lemma {:induction false} BitsFromSnoc(v: nat, s: seq<char>, c: char)
    ensures BitsFrom(v, s + [c]) == 2 * BitsFrom(v, s) + (if c == '1' then 1 else 0)
    decreases |s|
  {
    if s != [] {
      assert (s + [c])[1..] == s[1..] + [c];
      BitsFromSnoc(2 * v + (if s[0] == '1' then 1 else 0), s[1..], c);
    }
  }

  lemma {:induction false} HexFromSnoc(v: nat, s: seq<char>, c: char)
    ensures HexFrom(v, s + [c]) == HexStep(HexFrom(v, s), c)
    decreases |s|
  {
    if s != [] {
      assert (s + [c])[1..] == s[1..] + [c];
      HexFromSnoc(HexStep(v, s[0]), s[1..], c);
    }
  }

  /** Reading back the bits written for `x` gives `x`, when `x` fits in `k` bits. */
  lemma {:induction false} BinRoundTrip(x: nat, k: nat)
    requires x < Pow2(k)
    ensures BitsFrom(0, BinText(x, k)) == x
  {
    if k > 0 {
      BinRoundTrip(x / 2, k - 1);
      BitsFromSnoc(0, BinText(x / 2, k - 1), BitChar(x % 2));
    }
  }

  /** Reading back the hex digits written for `x` gives `x`, when `x` fits in `k` nibbles. */
  lemma {:induction false} HexRoundTrip(x: nat, k: nat)
    requires x < Pow16(k)
    ensures HexValue(HexText(x, k)) == x
  {
    if k > 0 {
      HexRoundTrip(x / 16, k - 1);
      HexFromSnoc(0, HexText(x / 16, k - 1), HexChar(x % 16));
    }
  }

  /** Below 16^(k+m), dropping `k` nibbles leaves a value below 16^m. */
  lemma {:induction false} ShiftNibblesBound(x: nat, k: nat, m: nat)
    requires x < Pow16(k + m)
    ensures ShiftNibbles(x, k) < Pow16(m)
    decreases k
  {
    if k > 0 {
      ShiftNibblesBound(x / 16, k - 1, m);
    }
  }

  // ---------------------------------------------------------------------------
  // Decimal texts

  /** The decimal digits of `x`, most significant first, no leading zeros, "0" for zero. */
  function DecText(x: nat): (s: seq<char>)
    ensures |s| >= 1 && IsDigit(s[0])
    ensures forall i :: 0 <= i < |s| ==> IsDigit(s[i])
    ensures s[0] == '0' ==> x == 0
  {
    if x < 10 then [DigitChar(x)] else DecText(x / 10) + [DigitChar(x % 10)]
  }

  /** '-' for a negative value, then the digits of its magnitude. */
  function SignedDecText(y: int): (s: seq<char>)
    ensures |s| >= 1
    ensures (s[0] == '-') == (y < 0)
    ensures y < 0 ==> s[1..] == DecText(-y)
    ensures y >= 0 ==> s == DecText(y)
  {
    if y < 0 then ['-'] + DecText(-y) else DecText(y)
  }

  /** The value the decimal readers accumulate from a run of digits (`value*10 + digit`). */
  function DecFrom(v: nat, ds: seq<char>): nat
    requires forall i :: 0 <= i < |ds| ==> IsDigit(ds[i])
    decreases |ds|
  {
    if ds == [] then v else DecFrom(10 * v + DigitValue(ds[0]), ds[1..])
  }

  function DecValue(ds: seq<char>): nat
    requires forall i :: 0 <= i < |ds| ==> IsDigit(ds[i])
  {
    DecFrom(0, ds)
  }

  lemma {:induction false} DecFromSnoc(v: nat, ds: seq<char>, c: char)
    requires forall i :: 0 <= i < |ds| ==> IsDigit(ds[i])
    requires IsDigit(c)
    ensures DecFrom(v, ds + [c]) == 10 * DecFrom(v, ds) + DigitValue(c)
    decreases |ds|
  {
    if ds != [] {
      assert (ds + [c])[1..] == ds[1..] + [c];
      DecFromSnoc(10 * v + DigitValue(ds[0]), ds[1..], c);
    }
  }

  /** More digits never make the accumulated value smaller. */
  lemma {:induction false} DecFromGrows(v: nat, ds: seq<char>)
    requires forall i :: 0 <= i < |ds| ==> IsDigit(ds[i])
    ensures DecFrom(v, ds) >= v
    decreases |ds|
  {
    if ds != [] {
      DecFromGrows(10 * v + DigitValue(ds[0]), ds[1..]);
    }
  }

  /** Reading back the digits written for `x` gives `x`. */
  lemma {:induction false} DecRoundTrip(x: nat)
    ensures DecValue(DecText(x)) == x
  {
    if x >= 10 {
      assert DecText(x) == DecText(x / 10) + [DigitChar(x % 10)];
      DecRoundTrip(x / 10);
      DecFromSnoc(0, DecText(x / 10), DigitChar(x % 10));
    } else {
      assert DecText(x) == [DigitChar(x)];
      assert DecFrom(0, [DigitChar(x)]) == DecFrom(x, []);
    }
  }

  /** A value below 10^k has at most `k` digits: the `letter[]` buffers are large enough. */
  lemma {:induction false} DecLength(x: nat, k: nat)
    requires 1 <= k && x < Pow10(k)
    ensures |DecText(x)| <= k
    decreases k
  {
    if x >= 10 {
      DecLength(x / 10, k - 1);
    }
  }

  /** The length of the NUL-terminated string held in `s`. */
  function CStrLen(s: seq<char>): (n: nat)
    ensures n <= |s| && NUL !in s[..n]
    ensures n < |s| ==> s[n] == NUL
  {
    if s == [] || s[0] == NUL then 0 else 1 + CStrLen(s[1..])
  }

  /** The position of the first CR in `s`, if any. */
  function FirstCr(s: seq<char>): (k: Option<nat>)
    ensures k.Some? ==> k.value < |s| && s[k.value] == CR && CR !in s[..k.value]
    ensures k.None? ==> CR !in s
  {
    if s == [] then None
    else if s[0] == CR then Some(0)
    else match FirstCr(s[1..])
      case None => None
      case Some(j) => Some(j + 1)
  }

  // ---------------------------------------------------------------------------
  // What the readers return

  /**
   * The outcome of a reader: it returned `ret` with the value it stored
   * through its pointer (if it stored one) and left `rest` unread, or it is
   * still waiting for input.
   */
  datatype InResult = Returned(ret: int8, stored: Option<int>, rest: seq<char>) | Starved

  /**
   * The `while(1)` loop of serInUint16Dec from the given state: digits are
   * accumulated in 32 bits and the 8-bit digit count `n`; a value above 65535
   * sets `err`, which stays set. A non-digit ends the number once a digit was
   * read; before that a control character is an error and anything else is
   * skipped.
   */
  function UDecLoop(inp: seq<char>, value: uint32, err: bool, n: uint8): InResult
    decreases |inp|
  {
    if inp == [] then Starved
    else if IsDigit(inp[0]) then
      var v: uint32 := (value * 10 + DigitValue(inp[0])) % 0x1_0000_0000;
      UDecLoop(inp[1..], v, err || v > 65535, (n + 1) % 0x100)
    else if n == 0 && inp[0] < ' ' then Returned(-1, None, inp[1..])
    else if n != 0 && err then Returned(1, None, inp[1..])
    else if n != 0 then Returned(0, Some(value), inp[1..])
    else UDecLoop(inp[1..], value, err, n)
  }

  function UDecIn(inp: seq<char>): InResult
  {
    UDecLoop(inp, 0, false, 0)
  }

  /** The largest magnitude serInInt16Dec accepts for the given sign. */
  function Int16Limit(neg: bool): nat
  {
    if neg then 32768 else 32767
  }

  /**
   * The `while(1)` loop of serInInt16Dec from the given state. Each round
   * reads a character, skips it and reads another if it is '+', then does the
   * same for '-', which also makes the number negative for good.
   */
  function IDecLoop(inp: seq<char>, value: int, err: bool, n: uint8, neg: bool): InResult
    decreases |inp|
  {
    if inp == [] then Starved
    else
      var afterPlus := if inp[0] == '+' then inp[1..] else inp;
      if afterPlus == [] then Starved
      else
        var neg' := neg || afterPlus[0] == '-';
        var afterMinus := if afterPlus[0] == '-' then afterPlus[1..] else afterPlus;
        if afterMinus == [] then Starved
        else
          var c := afterMinus[0];
          if IsDigit(c) then
            var v := value * 10 + DigitValue(c);
            IDecLoop(afterMinus[1..], v, err || v > Int16Limit(neg'), (n + 1) % 0x100, neg')
          else if n == 0 && c < ' ' then Returned(-1, None, afterMinus[1..])
          else if n != 0 && err then Returned(1, None, afterMinus[1..])
          else if n != 0 then Returned(0, Some(if neg' then -value else value), afterMinus[1..])
          else IDecLoop(afterMinus[1..], value, err, n, neg')
  }

  function IDecIn(inp: seq<char>): InResult
  {
    IDecLoop(inp, 0, false, 0, false)
  }

  /**
   * The `while(1)` loop of serInUint16Hex after the "0x" prefix: a control
   * character ends the number, hex digits are shifted in, other characters
   * are ignored, and a value above 65535 ends with an error at once.
   */
  function HexLoop(inp: seq<char>, val: nat): InResult
    decreases |inp|
  {
    if inp == [] then Starved
    else if inp[0] < ' ' then Returned(0, Some(val), inp[1..])
    else if HexStep(val, inp[0]) > 65535 then Returned(1, None, inp[1..])
    else HexLoop(inp[1..], HexStep(val, inp[0]))
  }

  /** serInUint16Hex: the input must start with '0' and then 'x' or 'X'. */
  function HexIn(inp: seq<char>): InResult
  {
    if inp == [] then Starved
    else if inp[0] != '0' then Returned(-1, None, inp[1..])
    else if |inp| == 1 then Starved
    else if inp[1] != 'x' && inp[1] != 'X' then Returned(-1, None, inp[2..])
    else HexLoop(inp[2..], 0)
  }

  // ---------------------------------------------------------------------------
  // What the readers accept

  /** Characters serInUint16Dec skips before the first digit. */
  predicate Skippable(p: seq<char>)
  {
    forall i :: 0 <= i < |p| ==> ' ' <= p[i] && !IsDigit(p[i])
  }

  predicate AllDigits(ds: seq<char>)
  {
    forall i :: 0 <= i < |ds| ==> IsDigit(ds[i])
  }

  lemma {:induction false} UDecSkip(p: seq<char>, tail: seq<char>)
    requires Skippable(p)
    ensures UDecIn(p + tail) == UDecIn(tail)
    decreases |p|
  {
    if p != [] {
      assert (p + tail)[0] == p[0] && (p + tail)[1..] == p[1..] + tail;
      assert ' ' <= p[0] && !IsDigit(p[0]);
      assert UDecIn(p + tail) == UDecLoop(p[1..] + tail, 0, false, 0);
      UDecSkip(p[1..], tail);
    } else {
      assert p + tail == tail;
    }
  }

  lemma {:induction false} UDecAfterError(ds: seq<char>, c: char, rest: seq<char>, v: uint32, n: uint8)
    requires AllDigits(ds) && !IsDigit(c)
    requires 1 <= n as int + |ds| <= 255
    ensures UDecLoop(ds + [c] + rest, v, true, n) == Returned(1, None, rest)
    decreases |ds|
  {
    if ds != [] {
      assert (ds + [c] + rest)[1..] == ds[1..] + [c] + rest;
      var v': uint32 := (v * 10 + DigitValue(ds[0])) % 0x1_0000_0000;
      UDecAfterError(ds[1..], c, rest, v', n + 1);
    } else {
      assert ds + [c] + rest == [c] + rest;
    }
  }

  lemma {:induction false} UDecDigits(ds: seq<char>, c: char, rest: seq<char>, v: uint32, n: uint8)
    requires AllDigits(ds) && !IsDigit(c)
    requires 1 <= n as int + |ds| <= 255 && v <= 65535
    ensures UDecLoop(ds + [c] + rest, v, false, n) ==
      if DecFrom(v, ds) <= 65535 then Returned(0, Some(DecFrom(v, ds)), rest) else Returned(1, None, rest)
    decreases |ds|
  {
    if ds == [] {
      assert ds + [c] + rest == [c] + rest;
    } else {
      assert (ds + [c] + rest)[1..] == ds[1..] + [c] + rest;
      var w := v * 10 + DigitValue(ds[0]);
      assert (v * 10 + DigitValue(ds[0])) % 0x1_0000_0000 == w;
      if w > 65535 {
        UDecAfterError(ds[1..], c, rest, w, n + 1);
        DecFromGrows(w, ds[1..]);
      } else {
        UDecDigits(ds[1..], c, rest, w, n + 1);
      }
    }
  }

  /**
   * serInUint16Dec on skippable characters, 1 to 255 digits and a non-digit:
   * 0 with the value when it is at most 65535, 1 without storing otherwise.
   */
  lemma UDecAccept(p: seq<char>, ds: seq<char>, c: char, rest: seq<char>)
    requires Skippable(p) && AllDigits(ds) && 1 <= |ds| <= 255 && !IsDigit(c)
    ensures UDecIn(p + ds + [c] + rest) ==
      if DecValue(ds) <= 65535 then Returned(0, Some(DecValue(ds)), rest) else Returned(1, None, rest)
  {
    assert p + ds + [c] + rest == p + (ds + [c] + rest);
    UDecSkip(p, ds + [c] + rest);
    UDecDigits(ds, c, rest, 0, 0);
  }

  /** serInUint16Dec returns -1 when a control character comes before any digit. */
  lemma UDecNoNumber(p: seq<char>, c: char, rest: seq<char>)
    requires Skippable(p) && c < ' '
    ensures UDecIn(p + [c] + rest) == Returned(-1, None, rest)
  {
    assert p + [c] + rest == p + ([c] + rest);
    UDecSkip(p, [c] + rest);
  }

  /** What serOutUint16Dec prints, followed by CR, serInUint16Dec reads back. */
  lemma UDecRoundTrip(x: uint16, rest: seq<char>)
    ensures UDecIn([' '] + DecText(x) + [CR] + rest) == Returned(0, Some(x as int), rest)
  {
    DecRoundTrip(x as nat);
    DecLength(x as nat, 5);
    UDecAccept([' '], DecText(x as nat), CR, rest);
  }

  /** Characters serInInt16Dec skips before the number: printable, no digit, no sign. */
  predicate SkippableSigned(p: seq<char>)
  {
    forall i :: 0 <= i < |p| ==> ' ' <= p[i] && !IsDigit(p[i]) && p[i] != '+' && p[i] != '-'
  }

  lemma {:induction false} IDecSkip(p: seq<char>, tail: seq<char>)
    requires SkippableSigned(p)
    ensures IDecIn(p + tail) == IDecIn(tail)
    decreases |p|
  {
    if p != [] {
      assert (p + tail)[0] == p[0] && (p + tail)[1..] == p[1..] + tail;
      IDecSkip(p[1..], tail);
    } else {
      assert p + tail == tail;
    }
  }

  lemma {:induction false} IDecAfterError(ds: seq<char>, c: char, rest: seq<char>, v: int, n: uint8, neg: bool)
    requires AllDigits(ds) && !IsDigit(c) && c != '+' && c != '-'
    requires 1 <= n as int + |ds| <= 255
    ensures IDecLoop(ds + [c] + rest, v, true, n, neg) == Returned(1, None, rest)
    decreases |ds|
  {
    if ds != [] {
      assert (ds + [c] + rest)[1..] == ds[1..] + [c] + rest;
      IDecAfterError(ds[1..], c, rest, v * 10 + DigitValue(ds[0]), n + 1, neg);
    } else {
      assert ds + [c] + rest == [c] + rest;
    }
  }

  /** The signed value serInInt16Dec stores for the magnitude `m`. */
  function Signed(m: int, neg: bool): int
  {
    if neg then -m else m
  }

  lemma {:induction false} IDecDigits(ds: seq<char>, c: char, rest: seq<char>, v: nat, n: uint8, neg: bool)
    requires AllDigits(ds) && !IsDigit(c) && c != '+' && c != '-'
    requires 1 <= n as int + |ds| <= 255 && v <= Int16Limit(neg)
    ensures IDecLoop(ds + [c] + rest, v, false, n, neg) ==
      if DecFrom(v, ds) <= Int16Limit(neg) then Returned(0, Some(Signed(DecFrom(v, ds), neg)), rest)
      else Returned(1, None, rest)
    decreases |ds|
  {
    if ds == [] {
      assert ds + [c] + rest == [c] + rest;
    } else {
      assert (ds + [c] + rest)[1..] == ds[1..] + [c] + rest;
      var w := v * 10 + DigitValue(ds[0]);
      if w > Int16Limit(neg) {
        IDecAfterError(ds[1..], c, rest, w, n + 1, neg);
        DecFromGrows(w, ds[1..]);
      } else {
        IDecDigits(ds[1..], c, rest, w, n + 1, neg);
      }
    }
  }

  /**
   * serInInt16Dec on skippable characters, an optional '+' or '-', 1 to 255
   * digits and a character that is neither digit nor sign: 0 with the signed
   * value when the magnitude is at most 32767 (32768 after '-'), 1 otherwise.
   */
  lemma IDecAccept(p: seq<char>, sign: seq<char>, ds: seq<char>, c: char, rest: seq<char>)
    requires SkippableSigned(p) && (sign == [] || sign == ['+'] || sign == ['-'])
    requires AllDigits(ds) && 1 <= |ds| <= 255 && !IsDigit(c) && c != '+' && c != '-'
    ensures var neg := sign == ['-'];
      IDecIn(p + sign + ds + [c] + rest) ==
      if DecValue(ds) <= Int16Limit(neg) then Returned(0, Some(Signed(DecValue(ds), neg)), rest)
      else Returned(1, None, rest)
  {
    var neg := sign == ['-'];
    var tail := ds[1..] + [c] + rest;
    assert p + sign + ds + [c] + rest == p + (sign + [ds[0]] + tail);
    IDecSkip(p, sign + [ds[0]] + tail);
    IDecFirstDigit(sign, ds[0], tail);
    IDecDigits(ds[1..], c, rest, DigitValue(ds[0]), 1, neg);
  }

  /** An optional sign and the first digit start the number: one digit read, the sign noted. */
  lemma IDecFirstDigit(sign: seq<char>, x: char, tail: seq<char>)
    requires (sign == [] || sign == ['+'] || sign == ['-']) && IsDigit(x)
    ensures IDecIn(sign + [x] + tail) == IDecLoop(tail, DigitValue(x), false, 1, sign == ['-'])
  {
    if sign == [] {
      assert sign + [x] + tail == [x] + tail;
      assert ([x] + tail)[1..] == tail;
    } else {
      assert (sign + [x] + tail)[1..] == [x] + tail;
      assert ([x] + tail)[1..] == tail;
    }
  }

  /** What serOutInt16Dec prints, followed by CR, serInInt16Dec reads back. */
  lemma IDecRoundTrip(y: int16, rest: seq<char>)
    ensures IDecIn([' '] + SignedDecText(y) + [CR] + rest) == Returned(0, Some(y as int), rest)
  {
    var m: nat := if y < 0 then -(y as int) else y as int;
    var sign := if y < 0 then ['-'] else [];
    DecRoundTrip(m);
    DecLength(m, 5);
    assert SignedDecText(y) == sign + DecText(m);
    assert [' '] + SignedDecText(y) + [CR] + rest == [' '] + sign + DecText(m) + [CR] + rest;
    assert (sign == ['-']) == (y < 0);
    assert m <= Int16Limit(y < 0) && Signed(m, y < 0) == y as int;
    IDecAccept([' '], sign, DecText(m), CR, rest);
  }

  lemma {:induction false} HexLoopRun(hs: seq<char>, c: char, rest: seq<char>, v: nat)
    requires forall i :: 0 <= i < |hs| ==> ' ' <= hs[i]
    requires c < ' ' && v <= 65535
    ensures var r := HexLoop(hs + [c] + rest, v);
      r.Returned? &&
      (HexFrom(v, hs) <= 65535 ==> r == Returned(0, Some(HexFrom(v, hs)), rest)) &&
      (HexFrom(v, hs) > 65535 ==> r.ret == 1 && r.stored == None)
    decreases |hs|
  {
    if hs == [] {
      assert hs + [c] + rest == [c] + rest;
    } else {
      assert (hs + [c] + rest)[1..] == hs[1..] + [c] + rest;
      var w := HexStep(v, hs[0]);
      if w > 65535 {
        HexFromGrows(w, hs[1..]);
      } else {
        HexLoopRun(hs[1..], c, rest, w);
      }
    }
  }

  lemma {:induction false} HexFromGrows(v: nat, s: seq<char>)
    ensures HexFrom(v, s) >= v
    decreases |s|
  {
    if s != [] {
      HexFromGrows(HexStep(v, s[0]), s[1..]);
    }
  }

  /**
   * serInUint16Hex on "0x" or "0X", printable characters and a control
   * character: 0 with the value of the hex digits among them when it is at
   * most 65535, 1 without storing otherwise.
   */
  lemma HexAccept(x: char, hs: seq<char>, c: char, rest: seq<char>)
    requires x == 'x' || x == 'X'
    requires forall i :: 0 <= i < |hs| ==> ' ' <= hs[i]
    requires c < ' '
    ensures var r := HexIn(['0', x] + hs + [c] + rest);
      r.Returned? &&
      (HexValue(hs) <= 65535 ==> r == Returned(0, Some(HexValue(hs)), rest)) &&
      (HexValue(hs) > 65535 ==> r.ret == 1 && r.stored == None)
  {
    assert (['0', x] + hs + [c] + rest)[2..] == hs + [c] + rest;
    HexLoopRun(hs, c, rest, 0);
  }

  /** What serOutUint16Hex prints after its leading " ", followed by CR, serInUint16Hex reads back. */
  lemma HexInRoundTrip(x: uint16, rest: seq<char>)
    ensures HexIn("0x" + HexText(x as nat, 4) + [CR] + rest) == Returned(0, Some(x as int), rest)
  {
    HexRoundTrip(x as nat, 4);
    HexAccept('x', HexText(x as nat, 4), CR, rest);
  }

  // ---------------------------------------------------------------------------
  // The serial port

  /** The characters sent so far and the characters not yet received. */
  class SerialPort {
    var output: seq<char>
    var input: seq<char>

    constructor (pending: seq<char>)
      ensures output == [] && input == pending
    {
      output := [];
      input := pending;
    }

    /** serPutc. */
    method Putc(c: char)
      modifies this
      ensures output == old(output) + [c] && input == old(input)
    {
      output := output + [c];
    }

    /** serGetc, once a character has arrived. */
    method Getc() returns (c: char)
      requires input != []
      modifies this
      ensures c == old(input)[0] && input == old(input)[1..] && output == old(output)
    {
      c := input[0];
      input := input[1..];
    }

    /** serPuts: the characters of the string up to its terminating NUL. */
    method Puts(s: seq<char>)
      modifies this
      ensures output == old(output) + s[..CStrLen(s)] && input == old(input)
    {
      var i := 0;
      while i < |s| && s[i] != NUL
        invariant 0 <= i <= CStrLen(s)
        invariant output == old(output) + s[..i] && input == old(input)
      {
        Putc(s[i]);
        i := i + 1;
      }
    }

    /** serOutUint8Bin: " 0b" and the eight bits of `x`, most significant first. */
    method OutUint8Bin(x: uint8)
      modifies this
      ensures output == old(output) + " 0b" + BinText(x as nat, 8) && input == old(input)
    {
      Puts(" 0b");
      var i := 0;
      while i < 8
        invariant 0 <= i <= 8
        invariant output == old(output) + " 0b" + BinText(x as nat, 8)[..i] && input == old(input)
      {
        Putc(BitChar(ShiftBits(x as nat, 7 - i) % 2));
        i := i + 1;
      }
    }

    /** One nibble as serPutc(y+0x30) or serPutc(y+0x37). */
    method PutHexDigit(y: nat)
      requires y < 16
      modifies this
      ensures output == old(output) + [HexChar(y)] && input == old(input)
    {
      if y < 10 {
        Putc((y + 0x30) as char);
      } else {
        Putc((y + 0x37) as char);
      }
    }

    /**
     * Position `j` of the text HexText(x, k), sent after the positions before
     * it; `y` is the nibble the C code computes for that position.
     */
    method PutTextNibble(y: nat, ghost x: nat, ghost k: nat, ghost j: nat, ghost start: seq<char>)
      requires j < k && y == ShiftNibbles(x, k - 1 - j) % 16
      requires output == start + HexText(x, k)[..j]
      modifies this
      ensures output == start + HexText(x, k)[..j + 1] && input == old(input)
    {
      PutHexDigit(y);
      assert HexText(x, k)[..j + 1] == HexText(x, k)[..j] + [HexText(x, k)[j]];
    }

    /** serOutUint8Hex: " 0x" and two upper-case hex digits. */
    method OutUint8Hex(x: uint8)
      modifies this
      ensures output == old(output) + " 0x" + HexText(x as nat, 2) && input == old(input)
    {
      ShiftNibblesBound(x as nat, 1, 1);
      Puts(" 0x");
      ghost var start := output;
      PutTextNibble(ShiftNibbles(x as nat, 1), x as nat, 2, 0, start);
      PutTextNibble(x as nat % 16, x as nat, 2, 1, start);
      assert HexText(x as nat, 2)[..2] == HexText(x as nat, 2);
    }

    /** serOutUint16Hex: " 0x" and four upper-case hex digits. */
    method OutUint16Hex(x: uint16)
      modifies this
      ensures output == old(output) + " 0x" + HexText(x as nat, 4) && input == old(input)
    {
      ShiftNibblesBound(x as nat, 3, 1);
      Puts(" 0x");
      ghost var start := output;
      PutTextNibble(ShiftNibbles(x as nat, 3), x as nat, 4, 0, start);
      PutTextNibble(ShiftNibbles(x as nat, 2) % 16, x as nat, 4, 1, start);
      PutTextNibble(ShiftNibbles(x as nat, 1) % 16, x as nat, 4, 2, start);
      PutTextNibble(x as nat % 16, x as nat, 4, 3, start);
      assert HexText(x as nat, 4)[..4] == HexText(x as nat, 4);
    }

    /** serOutUint32Hex: " 0x" and eight upper-case hex digits. */
    method OutUint32Hex(x: uint32)
      modifies this
      ensures output == old(output) + " 0x" + HexText(x as nat, 8) && input == old(input)
    {
      ShiftNibblesBound(x as nat, 7, 1);
      Puts(" 0x");
      ghost var start := output;
      PutTextNibble(ShiftNibbles(x as nat, 7), x as nat, 8, 0, start);
      PutTextNibble(ShiftNibbles(x as nat, 6) % 16, x as nat, 8, 1, start);
      PutTextNibble(ShiftNibbles(x as nat, 5) % 16, x as nat, 8, 2, start);
      PutTextNibble(ShiftNibbles(x as nat, 4) % 16, x as nat, 8, 3, start);
      PutTextNibble(ShiftNibbles(x as nat, 3) % 16, x as nat, 8, 4, start);
      PutTextNibble(ShiftNibbles(x as nat, 2) % 16, x as nat, 8, 5, start);
      PutTextNibble(ShiftNibbles(x as nat, 1) % 16, x as nat, 8, 6, start);
      PutTextNibble(x as nat % 16, x as nat, 8, 7, start);
      assert HexText(x as nat, 8)[..8] == HexText(x as nat, 8);
    }

    /**
     * The digit loop the decimal writers share: a do-while stores the digits
     * least significant first in `letter[cap]`, then they are sent backwards.
     */
    method PutDecimal(x: nat, cap: nat)
      requires |DecText(x)| <= cap
      modifies this
      ensures output == old(output) + DecText(x) && input == old(input)
    {
      var letter, n := StoreDigits(x, cap);
      SendBackwards(letter, n);
    }

    /** The do-while loop: `letter[n++] = (x % 10) + 0x30; x /= 10;` until `x` is 0. */
    static method StoreDigits(x: nat, cap: nat) returns (letter: array<char>, n: nat)
      requires |DecText(x)| <= cap
      ensures fresh(letter) && letter.Length == cap
      ensures n <= cap && Reversed(letter[..n]) == DecText(x)
    {
      letter := new char[cap];
      n := 0;
      var y := x;
      while n == 0 || y != 0
        invariant 0 <= n <= cap
        invariant n == 0 ==> y == x
        invariant y > 0 ==> DecText(y) + Reversed(letter[..n]) == DecText(x)
        invariant n > 0 && y == 0 ==> Reversed(letter[..n]) == DecText(x)
        decreases y, if n == 0 then 1 else 0
      {
        assert n < cap by {
          if y > 0 {
            assert |DecText(y)| + n == |DecText(x)|;
          }
        }
        letter[n] := DigitChar(y % 10);
        assert Reversed(letter[..n + 1]) == [letter[n]] + Reversed(letter[..n]);
        n := n + 1;
        y := y / 10;
      }
    }

    /** The output loop: `letter[n-1]` down to `letter[0]`. */
    method SendBackwards(letter: array<char>, n: nat)
      requires n <= letter.Length
      modifies this
      ensures output == old(output) + Reversed(letter[..n]) && input == old(input)
    {
      var i := n - 1;
      while i >= 0
        invariant -1 <= i <= n - 1
        invariant output == old(output) + Reversed(letter[..n])[..n - 1 - i] && input == old(input)
      {
        Putc(letter[i]);
        assert Reversed(letter[..n])[..n - i] == Reversed(letter[..n])[..n - 1 - i] + [letter[i]];
        i := i - 1;
      }
      assert Reversed(letter[..n])[..n] == Reversed(letter[..n]);
    }

    /** The part the signed writers share: '-' for a negative value (then `x = -x`), and the digits. */
    method PutSigned(y: int, cap: nat)
      requires |DecText(if y < 0 then -y else y)| <= cap
      modifies this
      ensures output == old(output) + SignedDecText(y) && input == old(input)
    {
      var x := y;
      if x < 0 {
        Putc('-');
        x := -x;
        assert SignedDecText(y) == ['-'] + DecText(x);
      }
      PutDecimal(x, cap);
    }

    /** serOutUint16Dec: ' ' and the decimal digits of `x`. */
    method OutUint16Dec(x: uint16)
      modifies this
      ensures output == old(output) + [' '] + DecText(x as nat) && input == old(input)
    {
      Putc(' ');
      DecLength(x as nat, 5);
      PutDecimal(x as nat, 5);
    }

    /** serOutInt16Dec: ' ', '-' for a negative value, and the digits of the magnitude. */
    method OutInt16Dec(y: int16)
      modifies this
      ensures output == old(output) + [' '] + SignedDecText(y as int) && input == old(input)
    {
      Putc(' ');
      DecLength(if y < 0 then -(y as int) else y as int, 5);
      PutSigned(y as int, 5);
    }

    /** serOutUint32Dec: ' ' and the decimal digits of `x`. */
    method OutUint32Dec(x: uint32)
      modifies this
      ensures output == old(output) + [' '] + DecText(x as nat) && input == old(input)
    {
      Putc(' ');
      DecLength(x as nat, 10);
      PutDecimal(x as nat, 10);
    }

    /** serOutInt32Dec; `x = -x` overflows for the smallest int32, which is excluded. */
    method OutInt32Dec(y: int32)
      requires y != -0x8000_0000
      modifies this
      ensures output == old(output) + [' '] + SignedDecText(y as int) && input == old(input)
    {
      Putc(' ');
      DecLength(if y < 0 then -(y as int) else y as int, 10);
      PutSigned(y as int, 10);
    }

    /**
     * serGets: the characters before the first CR are stored, then NUL; the
     * CR is consumed and the count returned in 8 bits. Without a CR in the
     * input the call is still waiting (`count` is None) after storing all of it.
     */
    method Gets() returns (count: Option<uint8>, line: seq<char>)
      modifies this
      ensures output == old(output)
      ensures FirstCr(old(input)).Some? ==>
        var k := FirstCr(old(input)).value;
        count == Some((k % 0x100) as uint8) && line == old(input)[..k] + [NUL] && input == old(input)[k + 1..]
      ensures FirstCr(old(input)).None? ==> count == None && line == old(input) && input == []
    {
      line := [];
      var n: uint8 := 0;
      if input == [] {
        return None, line;
      }
      var c := Getc();
      while c != CR
        invariant old(input) == line + [c] + input && CR !in line && n as int == |line| % 0x100
        invariant output == old(output)
        decreases |input|
      {
        line := line + [c];
        n := ((n as int + 1) % 0x100) as uint8;
        if input == [] {
          assert CR !in old(input);
          return None, line;
        }
        c := Getc();
      }
      assert old(input)[..|line|] == line && old(input)[|line|] == CR;
      assert FirstCr(old(input)) == Some(|line|);
      line := line + [NUL];
      count := Some(n);
    }

    /** serInUint16Dec, returning the outcome of its loop. */
    method InUint16Dec() returns (res: InResult)
      modifies this
      ensures res == UDecIn(old(input)) && output == old(output)
      ensures res.Returned? ==> input == res.rest
      ensures res.Starved? ==> input == []
    {
      var value: uint32 := 0;
      var err := false;
      var n: uint8 := 0;
      while input != []
        invariant UDecLoop(input, value, err, n) == UDecIn(old(input)) && output == old(output)
        decreases |input|
      {
        var letter := Getc();
        if IsDigit(letter) {
          value := (value * 10 + DigitValue(letter)) % 0x1_0000_0000;
          n := (n + 1) % 0x100;
          if value > 65535 {
            err := true;
          }
        } else {
          if n == 0 && letter < ' ' {
            return Returned(-1, None, input);
          }
          if n != 0 && err {
            return Returned(1, None, input);
          }
          if n != 0 && !err {
            return Returned(0, Some(value as int), input);
          }
        }
      }
      res := Starved;
    }

    /** serInInt16Dec, returning the outcome of its loop. */
    method InInt16Dec() returns (res: InResult)
      modifies this
      ensures res == IDecIn(old(input)) && output == old(output)
      ensures res.Returned? ==> input == res.rest
      ensures res.Starved? ==> input == []
    {
      var value := 0;
      var err := false;
      var n: uint8 := 0;
      var neg := false;
      res := Starved;
      while input != []
        invariant IDecLoop(input, value, err, n, neg) == IDecIn(old(input)) && output == old(output)
        decreases |input|
      {
        var letter := Getc();
        if letter == '+' {
          if input == [] {
            return;
          }
          letter := Getc();
        }
        if letter == '-' {
          if input == [] {
            return;
          }
          letter := Getc();
          neg := true;
        }
        if IsDigit(letter) {
          value := value * 10 + DigitValue(letter);
          n := (n + 1) % 0x100;
          if value > 32767 && !neg {
            err := true;
          }
          if value > 32768 && neg {
            err := true;
          }
        } else {
          if n == 0 && letter < ' ' {
            return Returned(-1, None, input);
          }
          if n != 0 && err {
            return Returned(1, None, input);
          }
          if n != 0 && !err {
            if neg {
              value := -value;
            }
            return Returned(0, Some(value), input);
          }
        }
      }
    }

    /** serInUint16Hex, returning the outcome of its prefix check and loop. */
    method InUint16Hex() returns (res: InResult)
      modifies this
      ensures res == HexIn(old(input)) && output == old(output)
      ensures res.Returned? ==> input == res.rest
      ensures res.Starved? ==> input == []
    {
      res := Starved;
      if input == [] {
        return;
      }
      var first := Getc();
      if first != '0' {
        return Returned(-1, None, input);
      }
      if input == [] {
        return;
      }
      var letter := Getc();
      if letter != 'x' && letter != 'X' {
        return Returned(-1, None, input);
      }
      var val: nat := 0;
      while input != []
        invariant val <= 65535
        invariant HexLoop(input, val) == HexIn(old(input)) && output == old(output)
        decreases |input|
      {
        letter := Getc();
        if letter < ' ' {
          return Returned(0, Some(val), input);
        }
        if '0' <= letter <= '9' {
          val := val * 16 + (letter as int - 0x30);
        }
        if 'A' <= letter <= 'F' {
          val := val * 16 + (letter as int - 0x37);
        }
        if 'a' <= letter <= 'f' {
          val := val * 16 + (letter as int - 0x57);
        }
        if val > 65535 {
          return Returned(1, None, input);
        }
      }
    }
  }
}
