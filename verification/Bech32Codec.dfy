/** The loops of src/bech32.cpp, proved against the functions in Bech32.dfy. */
module Bech32Codec {
  import opened Common
  import opened Bech32

  /** The remainder, coefficient by coefficient. */
  method ComputePolyMod(v: seq<Five>) returns (c: Remainder)
    ensures c == PolyMod(v)
  {
    c := One();
    var i := 0;
    while i < |v|
      invariant 0 <= i <= |v| && c == Run(One(), v[..i])
    {
      var shifted: Remainder := seq(30, k requires 0 <= k < 30 => if k < 5 then Digit(v[i], k) else c[k - 5]);
      var r := shifted;
      var n := 0;
      while n < 5
        invariant 0 <= n <= 5
        invariant forall k :: 0 <= k < 30 ==> r[k] == (shifted[k] != Taps(c, k, n))
      {
        if c[25 + n] {
          r := seq(30, k requires 0 <= k < 30 => r[k] != Digit(Generator(n), k));
        }
        n := n + 1;
      }
      assert r == Step(c, v[i]);
      assert v[..i + 1][..i] == v[..i];
      c := r;
      i := i + 1;
    }
    assert v[..i] == v;
  }

  method ExpandHRP(hrp: string) returns (ret: seq<Five>)
    ensures ret == Expanded(hrp)
  {
    var a := new Five[2 * |hrp| + 1](_ => 0);
    var i := 0;
    while i < |hrp|
      invariant 0 <= i <= |hrp| && a[|hrp|] == 0
      invariant forall k :: 0 <= k < i ==> a[k] == CodeOf(hrp[k]) / 32 && a[k + |hrp| + 1] == CodeOf(hrp[k]) % 32
    {
      a[i] := CodeOf(hrp[i]) / 32;
      a[i + |hrp| + 1] := CodeOf(hrp[i]) % 32;
      i := i + 1;
    }
    ret := a[..];
    forall k | 0 <= k < |ret|
      ensures ret[k] == Expanded(hrp)[k]
    {
      if k > |hrp| {
        assert ret[k] == a[(k - |hrp| - 1) + |hrp| + 1];
      }
    }
  }

  method VerifyChecksum(hrp: string, values: seq<Five>) returns (ok: bool)
    ensures ok <==> PolyMod(Expanded(hrp) + values) == One()
  {
    var enc := ExpandHRP(hrp);
    var c := ComputePolyMod(enc + values);
    ok := c == One();
  }

  method CreateChecksum(hrp: string, values: seq<Five>) returns (ret: seq<Five>)
    ensures ret == Checksum(Expanded(hrp) + values)
  {
    var enc := ExpandHRP(hrp);
    var mod := ComputePolyMod(enc + values + ZEROS);
    mod := Plus(mod, One());
    ret := [];
    while |ret| < 6
      invariant |ret| <= 6 && forall k :: 0 <= k < |ret| ==> ret[k] == Group(mod, 5 - k)
    {
      ret := ret + [Group(mod, 5 - |ret|)];
    }
    assert ret == Groups(mod);
  }

  /** The prefix must not have capital letters; this is asserted by the source. */
  method Encode(hrp: string, values: seq<Five>) returns (ret: string)
    requires !HasUpper(hrp)
    ensures ret == Encoded(hrp, values)
  {
    var checksum := CreateChecksum(hrp, values);
    var combined := values + checksum;
    ret := hrp + ['1'];
    var i := 0;
    while i < |combined|
      invariant 0 <= i <= |combined|
      invariant ret == hrp + ['1'] + Chars(combined)[..i]
    {
      ret := ret + [CharOf(combined[i])];
      i := i + 1;
    }
  }

  /** The scan over all characters: none unprintable, and not both cases. */
  method CheckCharacters(str: string) returns (ok: bool)
    ensures ok <==> AllPrintable(str) && !(HasLower(str) && HasUpper(str))
  {
    var lower, upper := false, false;
    var i := 0;
    while i < |str|
      invariant 0 <= i <= |str|
      invariant forall k :: 0 <= k < i ==> IsPrintable(str[k])
      invariant lower <==> exists k :: 0 <= k < i && IsLower(str[k])
      invariant upper <==> exists k :: 0 <= k < i && IsUpper(str[k])
    {
      var c := str[i];
      if IsLower(c) {
        lower := true;
      } else if IsUpper(c) {
        upper := true;
      } else if c as int < 33 || c as int > 126 {
        return false;
      }
      i := i + 1;
    }
    return !(lower && upper);
  }

  /** The values of the characters after the separator. */
  method ReadValues(str: string, pos: nat) returns (r: Option<seq<Five>>)
    requires pos < |str|
    ensures r == if AllInCharset(str[pos + 1..]) then Some(Values(str[pos + 1..])) else None
  {
    ghost var rest := str[pos + 1..];
    var values: seq<Five> := [];
    while |values| < |str| - 1 - pos
      invariant |values| <= |rest|
      invariant forall k :: 0 <= k < |values| ==> Rev(rest[k]) == values[k]
    {
      var rev := Rev(str[|values| + pos + 1]);
      if rev == -1 {
        assert Rev(rest[|values|]) == -1;
        return None;
      }
      values := values + [rev];
    }
    assert AllInCharset(rest) && values == Values(rest);
    return Some(values);
  }

  method LowerPrefix(str: string, pos: nat) returns (hrp: string)
    requires pos <= |str|
    ensures hrp == Lower(str[..pos])
  {
    hrp := "";
    while |hrp| < pos
      invariant |hrp| <= pos && hrp == Lower(str[..pos])[..|hrp|]
    {
      hrp := hrp + [LowerCase(str[|hrp|])];
    }
  }

  method Decode(str: string) returns (r: Option<(string, seq<Five>)>)
    ensures r == Decoded(str)
  {
    var ok := CheckCharacters(str);
    if !ok {
      return None;
    }
    var pos := LastOne(str);
    if |str| > 90 || pos == -1 || pos == 0 || pos + 7 > |str| {
      return None;
    }
    DecodedIs(str);
    r := DecodeParts(str, pos);
  }

  /** Prefix and data on the two sides of a separator, if the data are legal and the checksum is right. */
  method DecodeParts(str: string, pos: nat) returns (r: Option<(string, seq<Five>)>)
    requires pos + 7 <= |str|
    ensures var data := str[pos + 1..];
            r == if AllInCharset(data) && Verifies(str, pos) then Some((Lower(str[..pos]), Values(data)[..|data| - 6])) else None
  {
    var read := ReadValues(str, pos);
    if read.None? {
      return None;
    }
    var values := read.value;
    var hrp := LowerPrefix(str, pos);
    var ok := VerifyChecksum(hrp, values);
    if !ok {
      return None;
    }
    return Some((hrp, values[..|values| - 6]));
  }
}
