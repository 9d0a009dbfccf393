/**
 * Bitcoin-style Base58 encoding of a byte string (the alphabet of section 2 and
 * the encoding of section 3 of draft-msporny-base58): the bytes are read as one
 * big-endian number, written in base 58 over the alphabet, and every leading
 * zero byte becomes one leading '1'.
 *
 * `Encode` and `DivMod58` are the in-place long division over a byte array;
 * `Encoding` is what they compute, and `Decode` is its inverse.
 */
module Base58 {
  import opened Wrappers
  import opened Bytes

  /** The 58 symbols in digit order: 1-9, A-Z without I and O, a-z without l. */
  const Alphabet: string := "123456789" + "ABCDEFGH" + "JKLMN" + "PQRSTUVWXYZ" + "abcdefghijk" + "mnopqrstuvwxyz"

  type Digit = d: int | 0 <= d < 58

  // ---------------------------------------------------------------------------
  // Specification

  function Pow58(k: nat): (p: nat)
    ensures p >= 1
  {
    if k == 0 then 1 else 58 * Pow58(k - 1)
  }

  /** The base-58 digits of `v`, most significant first, with no leading zero digit (none at all for 0). */
  function Digits(v: nat): seq<Digit>
    decreases v
  {
    if v == 0 then [] else Digits(v / 58) + [v % 58]
  }

  /** The number that a digit string denotes. */
  function DigitsValue(ds: seq<Digit>): nat
  {
    if ds == [] then 0 else DigitsValue(ds[..|ds| - 1]) * 58 + ds[|ds| - 1]
  }

  /** Each digit written as its symbol. */
  function Render(ds: seq<Digit>): (s: string)
    ensures |s| == |ds|
  {
    if ds == [] then [] else Render(ds[..|ds| - 1]) + [Alphabet[ds[|ds| - 1]]]
  }

  /** `k` copies of '1', the symbol for digit zero. */
  function Ones(k: nat): (s: string)
    ensures |s| == k
  {
    seq(k, _ => '1')
  }

  /** The Base58 text of `data`: one '1' per leading zero byte, then the digits of its value. */
  function Encoding(data: seq<byte>): string
  {
    Ones(LeadingZeros(data)) + Render(Digits(BeValue(data)))
  }

  /** The digit a symbol stands for, if it is one of the alphabet. */
  function DigitOf(c: char): Option<Digit>
  {
    if '1' <= c <= '9' then Some(c as int - '1' as int)
    else if 'A' <= c <= 'H' then Some(c as int - 'A' as int + 9)
    else if 'J' <= c <= 'N' then Some(c as int - 'J' as int + 17)
    else if 'P' <= c <= 'Z' then Some(c as int - 'P' as int + 22)
    else if 'a' <= c <= 'k' then Some(c as int - 'a' as int + 33)
    else if 'm' <= c <= 'z' then Some(c as int - 'm' as int + 44)
    else None
  }

  /** The number of '1' symbols at the front of `s`. */
  function LeadingOnes(s: string): (k: nat)
    ensures k <= |s|
    ensures forall i :: 0 <= i < k ==> s[i] == '1'
    ensures k < |s| ==> s[k] != '1'
  {
    if s == [] || s[0] != '1' then 0 else 1 + LeadingOnes(s[1..])
  }

  function ParseDigits(s: string): Option<seq<Digit>>
  {
    if s == [] then Some([])
    else match (DigitOf(s[0]), ParseDigits(s[1..]))
      case (Some(d), Some(ds)) => Some([d] + ds)
      case _ => None
  }

  /** Base58 decoding: None when `s` holds a symbol outside the alphabet. */
  function Decode(s: string): Option<seq<byte>>
  {
    var ones := LeadingOnes(s);
    match ParseDigits(s[ones..])
    case None => None
    case Some(ds) => Some(Zeros(ones) + MinimalBytes(DigitsValue(ds)))
  }

  // ---------------------------------------------------------------------------
  // The long division, in place, as the encoder performs it

  /**
   * Divides the big-endian number held in input[startAt..] by 58 in place,
   * carrying the remainder from byte to byte, and returns the remainder.
   * Every quotient byte fits in a byte because the carried remainder is below 58.
   */
  method DivMod58(input: array<byte>, startAt: nat) returns (remainder: int)
    requires startAt <= input.Length
    modifies input
    ensures 0 <= remainder < 58
    ensures forall k :: 0 <= k < startAt ==> input[k] == old(input[k])
    ensures BeValue(old(input[startAt..])) == 58 * BeValue(input[startAt..]) + remainder
  {
    remainder := 0;
    var i := startAt;
    while i < input.Length
      invariant startAt <= i <= input.Length
      invariant 0 <= remainder < 58
      invariant forall k :: 0 <= k < startAt ==> input[k] == old(input[k])
      invariant forall k :: i <= k < input.Length ==> input[k] == old(input[k])
      invariant BeValue(old(input[startAt..i])) == 58 * BeValue(input[startAt..i]) + remainder
    {
      ghost var done := input[startAt..i];
      ghost var r := remainder;
      ghost var read := old(input[startAt..i]);
      var num := input[i];
      var temp := remainder * 256 + num;
      CarryStep(BeValue(done), r, num);
      input[i] := temp / 58;
      remainder := temp % 58;
      assert input[startAt..i + 1] == done + [temp / 58];
      assert old(input[startAt..i + 1]) == read + [num];
      BeValueSnoc(done, temp / 58);
      BeValueSnoc(read, num);
      i := i + 1;
    }
    assert input[startAt..] == input[startAt..input.Length];
    assert old(input[startAt..]) == old(input[startAt..input.Length]);
  }

  /** One step of the long division: the carry times 256 plus the next byte, split by 58. */
  lemma CarryStep(q: nat, r: int, num: byte)
    requires 0 <= r < 58
    ensures var t := r * 256 + num;
      0 <= t / 58 < 256 && 0 <= t % 58 < 58
      && 58 * (q * 256 + t / 58) + t % 58 == (58 * q + r) * 256 + num
  {
    var t := r * 256 + num;
    assert t == 58 * (t / 58) + t % 58;
  }

  /**
   * Base58 text of `data`; the empty string for null or empty input. The
   * caller's array is left untouched: the division works on a copy, and the
   * text is written backwards into a buffer of twice the input length.
   */
  method Encode(data: array?<byte>) returns (r: string)
    ensures data == null ==> r == ""
    ensures data != null ==> r == Encoding(data[..])
  {
    if data == null || data.Length == 0 {
      return "";
    }

    var zeros := 0;
    while zeros < data.Length && data[zeros] == 0
      invariant 0 <= zeros <= data.Length
      invariant forall k :: 0 <= k < zeros ==> data[k] == 0
    {
      zeros := zeros + 1;
    }
    assert zeros == LeadingZeros(data[..]);

    var input := new byte[data.Length];
    BlockCopy(data[..], 0, input, 0, data.Length);

    var temp := new char[input.Length * 2];
    ghost var value := BeValue(data[..]);
    assert BeValue(input[zeros..]) == value && (zeros < input.Length ==> input[zeros] != 0)
      && zeros + |Digits(value)| <= temp.Length by {
      assert input[..] == data[..];
      BeValueDropZeros(input[..], zeros);
      assert input[..][zeros..] == input[zeros..];
      EncodingFits(data[..]);
    }

    var j := WriteDigits(input, zeros, temp);
    j := WriteOnes(temp, j, zeros);
    r := temp[j..];
  }

  /**
   * The division loop of `Encode`: divides input[startAt..] by 58 until it is
   * used up, writing one symbol per remainder from the back of `temp`, and
   * returns where the symbols begin. `startAt` cells stay free for the '1's.
   * Cells of temp before j and bytes of input before startAt are untouched;
   * what is left in input[startAt..] (the spent quotient) is never read again.
   */
  method WriteDigits(input: array<byte>, startAt: nat, temp: array<char>) returns (j: nat)
    requires startAt <= input.Length
    requires startAt < input.Length ==> input[startAt] != 0
    requires startAt + |Digits(BeValue(input[startAt..]))| <= temp.Length
    modifies input, temp
    ensures startAt <= j <= temp.Length
    ensures temp[j..] == Render(Digits(BeValue(old(input[startAt..]))))
    ensures forall k :: 0 <= k < j ==> temp[k] == old(temp[k])
    ensures forall k :: 0 <= k < startAt ==> input[k] == old(input[k])
  {
    j := temp.Length;
    var at := startAt;
    ghost var value := BeValue(input[startAt..]);
    ghost var rest := input[at..];
    ghost var ds: seq<Digit> := [];
    while at < input.Length
      invariant startAt <= at <= input.Length
      invariant rest == input[at..]
      invariant rest != [] ==> rest[0] != 0
      invariant Digits(value) == Digits(BeValue(rest)) + ds
      invariant startAt + |Digits(value)| <= temp.Length
      invariant j + |ds| == temp.Length
      invariant temp[j..] == Render(ds)
      invariant forall k :: 0 <= k < j ==> temp[k] == old(temp[k])
      invariant forall k :: 0 <= k < startAt ==> input[k] == old(input[k])
      decreases j
    {
      var mod := DivMod58(input, at);
      ghost var digit: Digit := mod;
      ghost var quotient := input[at..];
      DivisionStep(value, rest, quotient, digit, ds);
      if input[at] == 0 {
        assert quotient[1..] == input[at + 1..];
        at := at + 1;
      }
      rest := input[at..];
      assert rest == TrimZero(quotient);
      j := PutDigit(temp, j, mod, ds);
      ds := [digit] + ds;
    }
    assert Digits(BeValue(rest)) == [];
    assert Digits(value) == ds;
  }

  /** One store of the first loop of `Encode`: temp[--j] = Alphabet[mod]. */
  method PutDigit(temp: array<char>, j: nat, mod: Digit, ghost ds: seq<Digit>) returns (j': nat)
    requires 0 < j <= temp.Length
    requires temp[j..] == Render(ds)
    modifies temp
    ensures j' == j - 1
    ensures temp[j'..] == Render([mod] + ds)
    ensures forall k :: 0 <= k < j' ==> temp[k] == old(temp[k])
  {
    j' := j - 1;
    temp[j'] := Alphabet[mod];
    RenderCons(mod, ds);
    assert temp[j'..] == [Alphabet[mod]] + old(temp[j..]);
  }

  /** The second loop of `Encode`: writes `zeros` symbols '1' in front of temp[j..]. */
  method WriteOnes(temp: array<char>, j: nat, zeros: nat) returns (start: nat)
    requires zeros <= j <= temp.Length
    modifies temp
    ensures start == j - zeros
    ensures temp[start..] == Ones(zeros) + old(temp[j..])
    ensures forall k :: 0 <= k < start ==> temp[k] == old(temp[k])
  {
    start := j;
    var left := zeros;
    while left > 0
      invariant 0 <= left <= start && start + (zeros - left) == j
      invariant forall k :: start <= k < j ==> temp[k] == '1'
      invariant forall k :: 0 <= k < start ==> temp[k] == old(temp[k])
      invariant forall k :: j <= k < temp.Length ==> temp[k] == old(temp[k])
    {
      left := left - 1;
      start := start - 1;
      temp[start] := '1';
    }
    assert temp[start..] == Ones(zeros) + old(temp[j..]) by {
      assert forall k :: 0 <= k < zeros ==> temp[start..][k] == '1';
      assert forall k :: zeros <= k < temp.Length - start ==> temp[start..][k] == old(temp[j..])[k - zeros];
    }
  }

  // ---------------------------------------------------------------------------
  // Lemmas

  /** Rendering a digit in front of others puts its symbol in front. */
  lemma {:induction false} RenderCons(d: Digit, ds: seq<Digit>)
    ensures Render([d] + ds) == [Alphabet[d]] + Render(ds)
  {
    if ds != [] {
      var init := ds[..|ds| - 1];
      assert ([d] + ds)[..|ds|] == [d] + init;
      RenderCons(d, init);
    }
  }

  /** Rendering works symbol by symbol. */
  lemma {:induction false} RenderAt(ds: seq<Digit>, i: nat)
    requires i < |ds|
    ensures Render(ds)[i] == Alphabet[ds[i]]
  {
    if i < |ds| - 1 {
      RenderAt(ds[..|ds| - 1], i);
    }
  }

  /** A quotient with its one possible leading zero byte dropped. */
  function TrimZero(q: seq<byte>): seq<byte>
  {
    if q != [] && q[0] == 0 then q[1..] else q
  }

  /**
   * One pass of the encoder's loop: dividing a number whose first byte is not
   * zero yields its last digit, and after dropping at most one zero byte the
   * quotient again starts with a nonzero byte (or is used up).
   */
  lemma DivisionStep(value: nat, before: seq<byte>, after: seq<byte>, mod: Digit, ds: seq<Digit>)
    requires |before| == |after| > 0 && before[0] != 0
    requires BeValue(before) == 58 * BeValue(after) + mod
    requires Digits(value) == Digits(BeValue(before)) + ds
    ensures Digits(value) == Digits(BeValue(TrimZero(after))) + ([mod] + ds)
    ensures TrimZero(after) != [] ==> TrimZero(after)[0] != 0
  {
    BeValueLowerBound(before);
    LastDigit(BeValue(before), BeValue(after), mod);
    assert BeValue(TrimZero(after)) == BeValue(after) by {
      if after[0] == 0 {
        assert after == [0] + after[1..];
        BeValueCons(0, after[1..]);
      }
    }
    if after[0] == 0 && |after| > 1 {
      QuotientLosesAtMostOneByte(before, after, mod);
    }
  }

  /** Dividing a positive v = 58q + r splits off its last digit r. */
  lemma LastDigit(v: nat, q: nat, r: int)
    requires v > 0 && v == 58 * q + r && 0 <= r < 58
    ensures Digits(v) == Digits(q) + [r]
  {
    assert v / 58 == q && v % 58 == r;
  }

  /**
   * The invariant that makes the encoder emit no surplus '1': if the dividend
   * had a nonzero first byte, the quotient has at most one leading zero byte.
   */
  lemma QuotientLosesAtMostOneByte(before: seq<byte>, after: seq<byte>, r: int)
    requires |before| == |after| >= 2 && before[0] != 0
    requires BeValue(before) == 58 * BeValue(after) + r && 0 <= r < 58
    requires after[0] == 0
    ensures after[1] != 0
  {
    var p := Pow256(|after| - 2);
    BeValueLowerBound(before);
    assert Pow256(|before| - 1) == 256 * p;
    assert after == [0] + after[1..];
    BeValueCons(0, after[1..]);
    assert after[1..] == [after[1]] + after[2..];
    BeValueCons(after[1], after[2..]);
    BeValueBound(after[2..]);
  }

  /** A value below 58^k has at most k digits. */
  lemma {:induction false} DigitsLength(v: nat, k: nat)
    requires v < Pow58(k)
    ensures |Digits(v)| <= k
  {
    if v > 0 {
      DigitsLength(v / 58, k - 1);
    }
  }

  lemma {:induction false} Pow256BelowPow58Squared(m: nat)
    ensures Pow256(m) <= Pow58(2 * m)
  {
    if m > 0 {
      Pow256BelowPow58Squared(m - 1);
      assert Pow58(2 * m) == 3364 * Pow58(2 * (m - 1));
    }
  }

  /** The text fits in the encoder's buffer of two symbols per byte. */
  lemma EncodingFits(data: seq<byte>)
    ensures LeadingZeros(data) + |Digits(BeValue(data))| <= 2 * |data|
    ensures |Encoding(data)| <= 2 * |data|
  {
    var z := LeadingZeros(data);
    BeValueDropZeros(data, z);
    BeValueBound(data[z..]);
    Pow256BelowPow58Squared(|data| - z);
    DigitsLength(BeValue(data), 2 * (|data| - z));
  }

  /** Digits is canonical: it denotes its argument and never starts with digit zero. */
  lemma {:induction false} DigitsCanonical(v: nat)
    ensures DigitsValue(Digits(v)) == v
    ensures v > 0 ==> Digits(v)[0] != 0
    decreases v
  {
    if v > 0 {
      DigitsCanonical(v / 58);
      var ds := Digits(v);
      assert ds[..|ds| - 1] == Digits(v / 58);
    }
  }

  /** Every symbol of the alphabet reads back as its own position. */
  lemma AlphabetDigits()
    ensures |Alphabet| == 58
    ensures forall d: Digit :: DigitOf(Alphabet[d]) == Some(d)
  {
    AlphabetSegment0();
    AlphabetSegment9();
    AlphabetSegment17();
    AlphabetSegment22();
    AlphabetSegment33();
    AlphabetSegment44();
  }

  // The alphabet is checked one contiguous run of DigitOf at a time, case by
  // case; the split only keeps each solver query small.

  lemma AlphabetSegment0()
    ensures |Alphabet| == 58
    ensures forall d: Digit :: 0 <= d < 9 ==> DigitOf(Alphabet[d]) == Some(d)
  {
    forall d: Digit | 0 <= d < 9
      ensures DigitOf(Alphabet[d]) == Some(d)
    {
      if d == 0 {} else if d == 1 {} else if d == 2 {} else if d == 3 {} else if d == 4 {} else if d == 5 {} else if d == 6 {} else if d == 7 {} else {}
    }
  }

  lemma AlphabetSegment9()
    ensures |Alphabet| == 58
    ensures forall d: Digit :: 9 <= d < 17 ==> DigitOf(Alphabet[d]) == Some(d)
  {
    forall d: Digit | 9 <= d < 17
      ensures DigitOf(Alphabet[d]) == Some(d)
    {
      if d == 9 {} else if d == 10 {} else if d == 11 {} else if d == 12 {} else if d == 13 {} else if d == 14 {} else if d == 15 {} else {}
    }
  }

  lemma AlphabetSegment17()
    ensures |Alphabet| == 58
    ensures forall d: Digit :: 17 <= d < 22 ==> DigitOf(Alphabet[d]) == Some(d)
  {
    forall d: Digit | 17 <= d < 22
      ensures DigitOf(Alphabet[d]) == Some(d)
    {
      if d == 17 {} else if d == 18 {} else if d == 19 {} else if d == 20 {} else {}
    }
  }

  lemma AlphabetSegment22()
    ensures |Alphabet| == 58
    ensures forall d: Digit :: 22 <= d < 33 ==> DigitOf(Alphabet[d]) == Some(d)
  {
    forall d: Digit | 22 <= d < 33
      ensures DigitOf(Alphabet[d]) == Some(d)
    {
      if d == 22 {} else if d == 23 {} else if d == 24 {} else if d == 25 {} else if d == 26 {} else if d == 27 {} else if d == 28 {} else if d == 29 {} else if d == 30 {} else if d == 31 {} else {}
    }
  }

  lemma AlphabetSegment33()
    ensures |Alphabet| == 58
    ensures forall d: Digit :: 33 <= d < 44 ==> DigitOf(Alphabet[d]) == Some(d)
  {
    forall d: Digit | 33 <= d < 44
      ensures DigitOf(Alphabet[d]) == Some(d)
    {
      if d == 33 {} else if d == 34 {} else if d == 35 {} else if d == 36 {} else if d == 37 {} else if d == 38 {} else if d == 39 {} else if d == 40 {} else if d == 41 {} else if d == 42 {} else {}
    }
  }

  lemma AlphabetSegment44()
    ensures |Alphabet| == 58
    ensures forall d: Digit :: 44 <= d < 58 ==> DigitOf(Alphabet[d]) == Some(d)
  {
    forall d: Digit | 44 <= d < 58
      ensures DigitOf(Alphabet[d]) == Some(d)
    {
      if d == 44 {} else if d == 45 {} else if d == 46 {} else if d == 47 {} else if d == 48 {} else if d == 49 {} else if d == 50 {} else if d == 51 {} else if d == 52 {} else if d == 53 {} else if d == 54 {} else if d == 55 {} else if d == 56 {} else {}
    }
  }

  /** Parsing the rendered symbols gives back the digits. */
  lemma {:induction false} ParseRender(ds: seq<Digit>)
    ensures ParseDigits(Render(ds)) == Some(ds)
  {
    if ds != [] {
      var s := Render(ds);
      assert ds == [ds[0]] + ds[1..];
      RenderCons(ds[0], ds[1..]);
      assert s[1..] == Render(ds[1..]);
      AlphabetDigits();
      ParseRender(ds[1..]);
    }
  }

  lemma {:induction false} LeadingOnesOf(k: nat, t: string)
    requires t == [] || t[0] != '1'
    ensures LeadingOnes(Ones(k) + t) == k
  {
    if k > 0 {
      assert (Ones(k) + t)[1..] == Ones(k - 1) + t;
      LeadingOnesOf(k - 1, t);
    }
  }

  /**
   * The leading '1' symbols of the text count the leading zero bytes exactly:
   * the digit part never starts with '1'.
   */
  lemma LeadingOnesCountZeros(data: seq<byte>)
    ensures LeadingOnes(Encoding(data)) == LeadingZeros(data)
  {
    var v := BeValue(data);
    DigitsCanonical(v);
    AlphabetDigits();
    if v > 0 {
      RenderAt(Digits(v), 0);
    }
    LeadingOnesOf(LeadingZeros(data), Render(Digits(v)));
  }

  /** Decoding the text gives back the bytes: Base58 loses nothing, leading zeros included. */
  lemma DecodeEncoding(data: seq<byte>)
    ensures Decode(Encoding(data)) == Some(data)
  {
    var z := LeadingZeros(data);
    var v := BeValue(data);
    assert ParseDigits(Encoding(data)[LeadingOnes(Encoding(data))..]) == Some(Digits(v)) by {
      LeadingOnesCountZeros(data);
      assert Encoding(data)[z..] == Render(Digits(v));
      ParseRender(Digits(v));
    }
    assert MinimalBytes(DigitsValue(Digits(v))) == data[z..] by {
      DigitsCanonical(v);
      BeValueDropZeros(data, z);
      MinimalBytesOfValue(data[z..]);
    }
    LeadingOnesCountZeros(data);
    assert Zeros(z) + data[z..] == data;
  }
}
