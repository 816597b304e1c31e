/** The loops of src/base58.cpp over digit buffers, proved against the functions in Base58.dfy. */
module Base58Codec {
  import opened Arithmetic
  import opened Common
  import opened Base58

  /** The last `length` places of a buffer hold digits without a leading zero, the others zeros. */
  ghost predicate Normal(s: seq<nat>, length: nat, b: nat) {
    && DigitsBelow(s, b) && length <= |s|
    && (forall i :: 0 <= i < |s| - length ==> s[i] == 0)
    && (length > 0 ==> s[|s| - length] != 0)
  }

  lemma NormalDigits(s: seq<nat>, length: nat, b: nat)
    requires b >= 2 && Normal(s, length, b)
    ensures s[|s| - length..] == Digits(Value(s, b), b)
  {
    LeadingZeros(s, |s| - length, b);
    DigitsOfValue(s[|s| - length..], b);
  }

  /** A digit that leaves no carry is not zero, if the carry into it or what it is made from is not. */
  lemma TopDigit(carry: nat, mult: nat, d: nat, b: nat)
    requires b >= 2 && mult >= 1 && (carry != 0 || d != 0)
    ensures (carry + mult * d) / b == 0 ==> (carry + mult * d) % b != 0
  {
    var n := carry + mult * d;
    MulMono(d, 1, mult);
    assert n == b * (n / b) + n % b;
  }

  lemma QuotientIsNat(n: nat, b: nat)
    requires b >= 2
    ensures n / b >= 0 && n / b == Quotient(n, b) && 0 <= n % b < b
  {
  }

  /** What is left of a multiplication under way. */
  ghost predicate MulAddUnderWay(was: seq<nat>, now: seq<nat>, i: nat, mult: nat, b: nat, carry0: nat, carry: nat)
    requires b >= 2
  {
    && |now| == |was| && i <= |was|
    && (forall k :: 0 <= k < |was| - i ==> now[k] == was[k])
    && var (front, out) := MulAdd(was[..|was| - i], mult, b, carry);
       MulAdd(was, mult, b, carry0) == (front + now[|was| - i..], out)
  }

  lemma MulAddStart(was: seq<nat>, mult: nat, b: nat, carry: nat)
    requires b >= 2
    ensures MulAddUnderWay(was, was, 0, mult, b, carry, carry)
  {
    assert was[..|was|] == was && was[|was|..] == [];
    var (front, out) := MulAdd(was, mult, b, carry);
    assert front + [] == front;
  }

  lemma MulAddOne(was: seq<nat>, now: seq<nat>, i: nat, mult: nat, b: nat, carry0: nat, carry: nat)
    requires b >= 2 && i < |was| && MulAddUnderWay(was, now, i, mult, b, carry0, carry)
    ensures var n := carry + mult * now[|was| - 1 - i];
            n / b >= 0 && n % b >= 0
            && MulAddUnderWay(was, now[|was| - 1 - i := n % b], i + 1, mult, b, carry0, n / b)
  {
    var p := |was| - 1 - i;
    var n := carry + mult * now[p];
    QuotientIsNat(n, b);
    var next := now[p := n % b];
    assert was[..p + 1][..p] == was[..p];
    var (front, out) := MulAdd(was[..p], mult, b, n / b);
    assert next[p..] == [n % b] + now[p + 1..];
    assert (front + [n % b]) + now[p + 1..] == front + next[p..];
  }

  lemma MulAddEnd(was: seq<nat>, now: seq<nat>, i: nat, mult: nat, b: nat, carry0: nat, carry: nat)
    requires b >= 2 && MulAddUnderWay(was, now, i, mult, b, carry0, carry)
    requires i == |was| || (carry == 0 && forall k :: 0 <= k < |was| - i ==> was[k] == 0)
    ensures MulAdd(was, mult, b, carry0) == (now, if i == |was| then carry else 0)
  {
    var front := was[..|was| - i];
    if i == |was| {
      assert front == [] && [] + now[0..] == now;
    } else {
      MulAddZeros(front, mult, b);
      assert front + now[|was| - i..] == now;
    }
  }

  /** One digit of a multiplication in place. */
  method MultiplyDigit(buf: array<nat>, i: nat, mult: nat, b: nat, carry: nat, ghost was: seq<nat>, ghost carry0: nat)
    returns (out: nat)
    requires b >= 2 && i < buf.Length && MulAddUnderWay(was, buf[..], i, mult, b, carry0, carry)
    modifies buf
    ensures MulAddUnderWay(was, buf[..], i + 1, mult, b, carry0, out)
    ensures var n := carry + mult * was[|was| - 1 - i]; out == n / b && buf[buf.Length - 1 - i] == n % b
  {
    ghost var now := buf[..];
    MulAddOne(was, now, i, mult, b, carry0, carry);
    var n := carry + mult * buf[buf.Length - 1 - i];
    var digit: nat := n % b;
    buf[buf.Length - 1 - i] := digit;
    assert buf[..] == now[buf.Length - 1 - i := digit];
    out := n / b;
  }

  /** mult * buf + carry0, in place; where the result fits, the final carry is zero. */
  method MultiplyAdd(buf: array<nat>, length: nat, mult: nat, b: nat, carry0: nat) returns (i: nat)
    requires b >= 2 && mult >= 1 && Normal(buf[..], length, b)
    requires mult * Value(buf[..], b) + carry0 < Power(b, buf.Length)
    modifies buf
    ensures length <= i <= buf.Length && Normal(buf[..], i, b)
    ensures Value(buf[..], b) == mult * old(Value(buf[..], b)) + carry0
  {
    ghost var was := buf[..];
    var carry: nat := carry0;
    i := 0;
    MulAddStart(was, mult, b, carry0);
    while (carry != 0 || i < length) && i < buf.Length
      invariant 0 <= i <= buf.Length
      invariant MulAddUnderWay(was, buf[..], i, mult, b, carry0, carry)
      invariant i > 0 && carry == 0 && i >= length ==> buf[buf.Length - i] != 0
      decreases buf.Length - i
    {
      TopDigitHere(was, length, i, carry, mult, b);
      carry := MultiplyDigit(buf, i, mult, b, carry, was, carry0);
      i := i + 1;
    }
    MulAddEnd(was, buf[..], i, mult, b, carry0, carry);
    MulAddFits(was, mult, b, carry0);
    assert carry == 0;
  }

  lemma TopDigitHere(was: seq<nat>, length: nat, i: nat, carry: nat, mult: nat, b: nat)
    requires b >= 2 && mult >= 1 && Normal(was, length, b) && i < |was| && (carry != 0 || i < length)
    ensures var n := carry + mult * was[|was| - 1 - i];
            n / b == 0 && i + 1 >= length ==> n % b != 0
  {
    if i + 1 >= length {
      TopDigit(carry, mult, was[|was| - 1 - i], b);
    }
  }

  // ---------------------------------------------------------------- encoding

  lemma NextDigitFits(s: seq<nat>, j: nat, a: nat, b: nat, size: nat)
    requires a >= 1 && DigitsBelow(s, a) && j < |s| && Power(a, |s|) <= Power(b, size)
    ensures a * Value(s[..j], a) + s[j] == Value(s[..j + 1], a) < Power(b, size)
  {
    assert s[..j + 1][..j] == s[..j];
    ValueBelow(s[..j + 1], a);
    PowerMono(a, j + 1, |s|);
  }

  lemma ZeroBuffer(s: seq<nat>, b: nat)
    requires b >= 1 && forall i :: 0 <= i < |s| ==> s[i] == 0
    ensures Value(s, b) == 0 && Normal(s, 0, b)
  {
    LeadingZeros(s, |s|, b);
  }

  /** The bytes in base 58, in a buffer of the size that the source computes. */
  method ToBase58(input: Bytes) returns (b58: array<nat>, length: nat)
    ensures fresh(b58) && Normal(b58[..], length, 58) && Value(b58[..], 58) == Value(input, 256)
  {
    var size := |input| * 138 / 100 + 1;
    b58 := new nat[size](_ => 0);
    length := 0;
    ZeroBuffer(b58[..], 58);
    EncodeSizeIsEnough(|input|);
    var j := 0;
    while j < |input|
      invariant 0 <= j <= |input| && fresh(b58)
      invariant Normal(b58[..], length, 58) && Value(b58[..], 58) == Value(input[..j], 256)
    {
      NextDigitFits(input, j, 256, 58, size);
      length := MultiplyAdd(b58, length, 256, 58, input[j]);
      j := j + 1;
    }
    assert input[..j] == input;
  }

  method EncodeBase58(input: Bytes) returns (str: string)
    ensures str == Encoded(input)
  {
    var zeroes := 0;
    while zeroes < |input| && input[zeroes] == 0
      invariant 0 <= zeroes <= |input| && forall i :: 0 <= i < zeroes ==> IsZero(input[i])
    {
      zeroes := zeroes + 1;
    }
    LeadingIs(input, IsZero, zeroes);
    var b58, length := ToBase58(input[zeroes..]);
    NormalDigits(b58[..], length, 58);
    var digits := Spelled(b58, length);
    str := Repeat('1', zeroes) + digits;
  }

  /** The first digit other than zero. */
  method SkipZeros(b58: array<nat>, start: nat) returns (it: nat)
    requires start <= b58.Length
    ensures start <= it <= b58.Length && (it < b58.Length ==> b58[it] != 0)
    ensures forall i :: start <= i < it ==> b58[i] == 0
  {
    it := start;
    while it != b58.Length && b58[it] == 0
      invariant start <= it <= b58.Length && forall i :: start <= i < it ==> b58[i] == 0
    {
      it := it + 1;
    }
  }

  /** The characters of the digits in a buffer, without leading zeros. */
  method Spelled(b58: array<nat>, length: nat) returns (str: string)
    requires Normal(b58[..], length, 58)
    ensures DigitsBelow(b58[b58.Length - length..], 58) && str == Chars(b58[b58.Length - length..])
  {
    ghost var digits := b58[b58.Length - length..];
    var it := SkipZeros(b58, b58.Length - length);
    assert it == b58.Length - length;
    str := "";
    while it != b58.Length
      invariant b58.Length - length <= it <= b58.Length
      invariant str == Chars(digits)[..it - (b58.Length - length)]
    {
      assert b58[it] == digits[it - (b58.Length - length)];
      str := str + [CharOf(b58[it])];
      it := it + 1;
    }
  }

  // ---------------------------------------------------------------- decoding

  lemma {:induction false} DigitsGrow(v: nat, w: nat, b: nat)
    requires b >= 2 && v <= w
    ensures |Digits(v, b)| <= |Digits(w, b)|
    decreases w
  {
    if v > 0 {
      QuotientGrows(v, w, b);
      DigitsGrow(Quotient(v, b), Quotient(w, b), b);
    }
  }

  lemma QuotientGrows(v: nat, w: nat, b: nat)
    requires b >= 2 && v <= w
    ensures Quotient(v, b) <= Quotient(w, b)
  {
    var q, r := Quotient(v, b), Quotient(w, b);
    if q > r {
      MulMono(b, r + 1, q);
      Distribute(b, r, 1);
    }
  }

  lemma {:induction false} PrefixIsLess(s: seq<nat>, j: nat, b: nat)
    requires b >= 1 && j <= |s|
    ensures Value(s[..j], b) <= Value(s, b)
    decreases |s|
  {
    if j < |s| {
      var front := s[..|s| - 1];
      PrefixIsLess(front, j, b);
      assert front[..j] == s[..j];
      MulMono(Value(front, b), 1, b);
    } else {
      assert s[..j] == s;
    }
  }

  /** A prefix that is too long already makes the whole too long. */
  lemma TooLong(body: string, j: nat, zeroes: nat, maxLength: int)
    requires AllBase58(body) && j <= |body|
    requires zeroes + |Digits(Value(Revs(body[..j]), 58), 256)| > maxLength
    ensures zeroes + |Digits(Value(Revs(body), 58), 256)| > maxLength
  {
    assert Revs(body[..j]) == Revs(body)[..j];
    PrefixIsLess(Revs(body), j, 58);
    DigitsGrow(Value(Revs(body[..j]), 58), Value(Revs(body), 58), 256);
  }

  lemma OneMoreRev(body: string, j: nat)
    requires j < |body| && AllBase58(body[..j]) && RevOf(body[j]) >= 0
    ensures AllBase58(body[..j + 1]) && Revs(body[..j + 1]) == Revs(body[..j]) + [RevOf(body[j])]
  {
  }

  /** What fits from here on: one more digit. */
  lemma NextCharFits(body: string, j: nat, size: nat, length: nat)
    requires j < |body| <= length && AllBase58(body[..j]) && RevOf(body[j]) >= 0
    requires Power(58, length) <= Power(256, size)
    ensures AllBase58(body[..j + 1])
    ensures 58 * Value(Revs(body[..j]), 58) + RevOf(body[j]) == Value(Revs(body[..j + 1]), 58) < Power(256, size)
  {
    OneMoreRev(body, j);
    var s := Revs(body[..j + 1]);
    assert s[..j] == Revs(body[..j]);
    ValueBelow(s, 58);
    PowerMono(58, j + 1, length);
  }

  /** A buffer holds the number that some characters stand for. */
  ghost predicate Holds(buf: seq<nat>, length: nat, body: string) {
    AllBase58(body) && Normal(buf, length, 256) && Value(buf, 256) == Value(Revs(body), 58)
  }

  /** One more character. */
  method AddChar(b256: array<nat>, length: nat, ghost body: string, ghost j: nat, ghost total: nat, carry: nat) returns (longer: nat)
    requires j < |body| <= total && Holds(b256[..], length, body[..j]) && carry == RevOf(body[j])
    requires Power(58, total) <= Power(256, b256.Length)
    modifies b256
    ensures Holds(b256[..], longer, body[..j + 1])
  {
    NextCharFits(body, j, b256.Length, total);
    longer := MultiplyAdd(b256, length, 58, 256, carry);
  }

  /** The characters up to the next space, in base 256, unless one is invalid or there are too many. */
  method FromBase58(u: string, zeroes: nat, maxLength: int) returns (ok: bool, b256: array<nat>, length: nat, j: nat)
    ensures fresh(b256) && j <= |u|
    ensures var body := u[..Leading(u, NotSpace)];
            && (ok ==> j == |body| && Holds(b256[..], length, body) && (body != [] ==> zeroes + length <= maxLength))
            && (!ok ==> !AllBase58(body)
                        || (body != [] && zeroes + |Digits(Value(Revs(body), 58), 256)| > maxLength))
  {
    var size := |u| * 733 / 1000 + 1;
    b256 := new nat[size](_ => 0);
    length := 0;
    ghost var body := u[..Leading(u, NotSpace)];
    ZeroBuffer(b256[..], 256);
    DecodeSizeIsEnough(|u|);
    j := 0;
    while j < |u| && !IsSpace(u[j])
      invariant 0 <= j <= |body| && fresh(b256)
      invariant Holds(b256[..], length, body[..j])
      invariant j > 0 ==> zeroes + length <= maxLength
    {
      var carry := RevOf(u[j]);
      assert u[j] == body[j];
      if carry == -1 {
        return false, b256, length, j;
      }
      length := AddChar(b256, length, body, j, |u|, carry);
      if length + zeroes > maxLength {
        NormalDigits(b256[..], length, 256);
        if AllBase58(body) {
          TooLong(body, j + 1, zeroes, maxLength);
        }
        return false, b256, length, j;
      }
      j := j + 1;
    }
    assert body[..j] == body;
    ok := true;
  }

  method SkipSpaces(s: string, start: nat) returns (k: nat)
    requires start <= |s|
    ensures start <= k <= |s| && k - start == Leading(s[start..], IsSpace)
  {
    k := start;
    while k < |s| && IsSpace(s[k])
      invariant start <= k <= |s| && forall i :: start <= i < k ==> IsSpace(s[i])
    {
      k := k + 1;
    }
    LeadingIs(s[start..], IsSpace, k - start);
  }

  /** Counts leading ones, and gives up when there are more than fit. */
  method CountOnes(t: string, maxLength: int) returns (ok: bool, zeroes: nat)
    ensures ok <==> Leading(t, IsOne) == 0 || Leading(t, IsOne) <= maxLength
    ensures ok ==> zeroes == Leading(t, IsOne)
  {
    zeroes := 0;
    while zeroes < |t| && t[zeroes] == '1'
      invariant 0 <= zeroes <= |t| && forall i :: 0 <= i < zeroes ==> IsOne(t[i])
      invariant zeroes > 0 ==> zeroes <= maxLength
    {
      zeroes := zeroes + 1;
      if zeroes > maxLength {
        AtLeast(t, IsOne, zeroes);
        return false, zeroes;
      }
    }
    LeadingIs(t, IsOne, zeroes);
    ok := true;
  }

  method DecodeBase58(s: string, maxLength: int) returns (r: Option<Bytes>)
    ensures r == Decoded(s, maxLength)
  {
    var start := SkipSpaces(s, 0);
    assert s[0..] == s;
    var t := s[start..];
    var ok, zeroes := CountOnes(t, maxLength);
    if !ok {
      return None;
    }
    r := DecodeRest(t[zeroes..], zeroes, maxLength);
  }

  /** What follows the leading spaces and ones. */
  method DecodeRest(u: string, zeroes: nat, maxLength: int) returns (r: Option<Bytes>)
    requires zeroes > 0 ==> zeroes <= maxLength
    ensures var n := Leading(u, NotSpace); r == DecodedParts(Parts(zeroes, u[..n], u[n..]), maxLength)
  {
    var ok, b256, length, n := FromBase58(u, zeroes, maxLength);
    if !ok {
      return None;
    }
    var end := SkipSpaces(u, n);
    HeldDecides(b256[..], length, u, n, end - n, zeroes, maxLength);
    if end != |u| {
      return None;
    }
    r := Some(Repeat(0, zeroes) + AsBytes(b256[b256.Length - length..]));
  }

  lemma HeldDecides(buf: seq<nat>, length: nat, u: string, n: nat, spaces: nat, zeroes: nat, maxLength: int)
    requires n <= |u| && Holds(buf, length, u[..n]) && spaces == Leading(u[n..], IsSpace)
    requires (zeroes > 0 ==> zeroes <= maxLength) && (u[..n] != [] ==> zeroes + length <= maxLength)
    ensures length <= |buf| && DigitsBelow(buf[|buf| - length..], 256)
    ensures DecodedParts(Parts(zeroes, u[..n], u[n..]), maxLength)
            == if n + spaces == |u| then Some(Repeat(0, zeroes) + AsBytes(buf[|buf| - length..])) else None
  {
    NormalDigits(buf, length, 256);
    RestDecides(u, n, spaces, zeroes, maxLength);
  }

  /** What follows the characters may only be spaces. */
  lemma RestDecides(u: string, n: nat, spaces: nat, zeroes: nat, maxLength: int)
    requires n <= |u| && spaces == Leading(u[n..], IsSpace) && AllBase58(u[..n])
    requires zeroes > 0 ==> zeroes <= maxLength
    requires u[..n] != [] ==> zeroes + |Digits(Value(Revs(u[..n]), 58), 256)| <= maxLength
    ensures DigitsBelow(Digits(Value(Revs(u[..n]), 58), 256), 256)
    ensures DecodedParts(Parts(zeroes, u[..n], u[n..]), maxLength)
            == if n + spaces == |u| then Some(Repeat(0, zeroes) + AsBytes(Digits(Value(Revs(u[..n]), 58), 256))) else None
  {
    ValueOfDigits(Value(Revs(u[..n]), 58), 256);
    if n + spaces != |u| {
      assert !IsSpace(u[n..][spaces]);
    }
  }

  lemma {:induction false} AtLeast<T>(s: seq<T>, p: T -> bool, n: nat)
    requires n <= |s| && forall i :: 0 <= i < n ==> p(s[i])
    ensures Leading(s, p) >= n
  {
    if n > 0 {
      AtLeast(s[1..], p, n - 1);
    }
  }
}
