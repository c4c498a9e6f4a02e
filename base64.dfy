/**
 * Go's `base64.RawStdEncoding`: the standard alphabet of section 4 of
 * RFC 4648 with the padding of section 3.2 omitted, decoded leniently
 * (carriage returns and line feeds are skipped, and trailing bits need not
 * be zero).
 */
module Base64 {
  import opened GoTypes

  const CR: byte := 13
  const LF: byte := 10

  /** The padding symbol '=' of section 3.2 of RFC 4648, which this encoding leaves out. */
  const PAD: byte := 61

  /** The 6-bit value a symbol of the alphabet stands for, or -1 for any other byte. */
  function SymbolValue(c: byte): (v: int)
    ensures -1 <= v < 64
  {
    if 65 <= c <= 90 then c as int - 65          // 'A'..'Z'
    else if 97 <= c <= 122 then c as int - 71    // 'a'..'z'
    else if 48 <= c <= 57 then c as int + 4      // '0'..'9'
    else if c == 43 then 62                      // '+'
    else if c == 47 then 63                      // '/'
    else -1
  }

  predicate IsSymbol(c: byte) {
    SymbolValue(c) >= 0
  }

  predicate AllSymbols(s: seq<byte>) {
    forall i :: 0 <= i < |s| ==> IsSymbol(s[i])
  }

  /** The symbol for a 6-bit value. */
  function Symbol(v: int): (c: byte)
    requires 0 <= v < 64
    ensures SymbolValue(c) == v
  {
    if v < 26 then (v + 65) as byte
    else if v < 52 then (v + 71) as byte
    else if v < 62 then (v - 4) as byte
    else if v == 62 then 43
    else 47
  }

  /** The result of `DecodeString`: the bytes decoded, and whether the error was nil. */
  datatype Decoded = Decoded(bytes: seq<byte>, ok: bool)

  /** The input with every carriage return and line feed removed. */
  function StripLineBreaks(s: seq<byte>): (r: seq<byte>)
    ensures |r| <= |s|
  {
    if |s| == 0 then []
    else if s[0] == CR || s[0] == LF then StripLineBreaks(s[1..])
    else [s[0]] + StripLineBreaks(s[1..])
  }

  /**
   * One quantum of 2 to 4 symbols: 6 bits per symbol, read most significant
   * first, give one byte fewer than there are symbols.
   */
  function DecodeQuantum(q: seq<byte>): (r: seq<byte>)
    requires 2 <= |q| <= 4 && AllSymbols(q)
    ensures |r| == |q| - 1
  {
    var v0: int := SymbolValue(q[0]);
    var v1: int := SymbolValue(q[1]);
    var v2: int := if |q| > 2 then SymbolValue(q[2]) else 0;
    var v3: int := if |q| > 3 then SymbolValue(q[3]) else 0;
    assert 0 <= v0 < 64 && 0 <= v1 < 64 && 0 <= v2 < 64 && 0 <= v3 < 64;
    var bytes := [(v0 * 4 + v1 / 16) as byte, ((v1 % 16) * 16 + v2 / 4) as byte, ((v2 % 4) * 64 + v3) as byte];
    bytes[..|q| - 1]
  }

  /**
   * Decoding of symbols with the line breaks already removed, one quantum of
   * four at a time. A quantum holding a byte outside the alphabet, or a last
   * quantum of a single symbol, ends the decoding with an error; what was
   * decoded before it is kept.
   */
  function DecodeSymbols(t: seq<byte>): (r: Decoded)
    ensures r.ok ==> |r.bytes| == |t| * 3 / 4
    ensures |r.bytes| <= |t| * 3 / 4
    decreases |t|
  {
    if |t| == 0 then Decoded([], true)
    else if |t| == 1 then Decoded([], false)
    else
      var n := if |t| < 4 then |t| else 4;
      if !AllSymbols(t[..n]) then Decoded([], false)
      else if |t| == n then Decoded(DecodeQuantum(t), true)
      else
        var rest := DecodeSymbols(t[4..]);
        Decoded(DecodeQuantum(t[..4]) + rest.bytes, rest.ok)
  }

  /** `RawStdEncoding.DecodeString(s)`: the decoded bytes, and whether the error was nil. */
  function DecodeString(s: GoString): (r: Decoded)
    ensures r.ok ==> |r.bytes| == |StripLineBreaks(s)| * 3 / 4
  {
    DecodeSymbols(StripLineBreaks(s))
  }

  /** One group of 1 to 3 bytes as one symbol more than there are bytes. */
  function EncodeGroup(g: seq<byte>): (r: seq<byte>)
    requires 1 <= |g| <= 3
    ensures |r| == |g| + 1 && AllSymbols(r)
  {
    var x := g[0] as int;
    var y := if |g| > 1 then g[1] as int else 0;
    var z := if |g| > 2 then g[2] as int else 0;
    var symbols := [Symbol(x / 4), Symbol((x % 4) * 16 + y / 16), Symbol((y % 16) * 4 + z / 64), Symbol(z % 64)];
    symbols[..|g| + 1]
  }

  /** `RawStdEncoding.EncodeToString(b)`: four symbols per three bytes, no padding. */
  function EncodeToString(b: seq<byte>): (r: GoString)
    ensures |r| == (|b| * 8 + 5) / 6
    ensures AllSymbols(r)
    decreases |b|
  {
    if |b| == 0 then []
    else if |b| <= 3 then EncodeGroup(b)
    else
      var rest := EncodeToString(b[3..]);
      AllSymbolsSplit(EncodeGroup(b[..3]) + rest, 4);
      assert (EncodeGroup(b[..3]) + rest)[4..] == rest;
      EncodeGroup(b[..3]) + rest
  }

  lemma SextetArithmetic(x: int, y: int, z: int)
    requires 0 <= x < 256 && 0 <= y < 256 && 0 <= z < 256
    ensures (x / 4) * 4 + ((x % 4) * 16 + y / 16) / 16 == x
    ensures (((x % 4) * 16 + y / 16) % 16) * 16 + ((y % 16) * 4 + z / 64) / 4 == y
    ensures (((y % 16) * 4 + z / 64) % 4) * 64 + z % 64 == z
  {
  }

  lemma {:induction false} StripLineBreaksAbsent(s: seq<byte>)
    requires forall i :: 0 <= i < |s| ==> s[i] != CR && s[i] != LF
    ensures StripLineBreaks(s) == s
    decreases |s|
  {
    if |s| > 0 {
      StripLineBreaksAbsent(s[1..]);
      assert [s[0]] + s[1..] == s;
    }
  }

  lemma GroupRoundTrip(g: seq<byte>)
    requires 1 <= |g| <= 3
    ensures DecodeQuantum(EncodeGroup(g)) == g
  {
    var x := g[0] as int;
    var y := if |g| > 1 then g[1] as int else 0;
    var z := if |g| > 2 then g[2] as int else 0;
    SextetArithmetic(x, y, z);
  }

  /** Decoding an encoding gives back the bytes, with a nil error. */
  lemma {:induction false} DecodeEncode(b: seq<byte>)
    ensures DecodeString(EncodeToString(b)) == Decoded(b, true)
    decreases |b|
  {
    var e := EncodeToString(b);
    StripLineBreaksAbsent(e);
    if |b| == 0 {
    } else if |b| <= 3 {
      GroupRoundTrip(b);
      assert e[..|e|] == e;
    } else {
      var rest := EncodeToString(b[3..]);
      assert e[..4] == EncodeGroup(b[..3]) && e[4..] == rest;
      GroupRoundTrip(b[..3]);
      DecodeEncode(b[3..]);
      StripLineBreaksAbsent(rest);
      assert b == b[..3] + b[3..];
    }
  }

  lemma AllSymbolsSplit(t: seq<byte>, n: nat)
    requires n <= |t|
    ensures AllSymbols(t) <==> AllSymbols(t[..n]) && AllSymbols(t[n..])
  {
    if AllSymbols(t[..n]) && AllSymbols(t[n..]) {
      forall i | 0 <= i < |t| ensures IsSymbol(t[i]) {
        if i < n { assert t[i] == t[..n][i]; } else { assert t[i] == t[n..][i - n]; }
      }
    }
  }

  /**
   * Decoding symbols succeeds exactly when every one of them is in the
   * alphabet and they do not leave a lone one at the end.
   */
  lemma {:induction false} DecodeSymbolsOkIff(t: seq<byte>)
    ensures DecodeSymbols(t).ok <==> AllSymbols(t) && |t| % 4 != 1
    decreases |t|
  {
    if 1 < |t| <= 4 {
      assert t[..|t|] == t;
    } else if |t| > 4 {
      AllSymbolsSplit(t, 4);
      DecodeSymbolsOkIff(t[4..]);
    }
  }

  /** The padding `StdEncoding` appends to the encoding of `n` bytes. */
  function Padding(n: nat): (r: seq<byte>)
    ensures |r| == (3 - n % 3) % 3
    ensures forall i :: 0 <= i < |r| ==> r[i] == PAD
  {
    seq((3 - n % 3) % 3, _ => PAD)
  }

  /**
   * A salt written with padding (`StdEncoding`) is not what this decoder
   * reads: the final quantum, which holds the padding, is rejected whole, so
   * the decoded bytes lose the last one or two bytes and the error is set.
   */
  lemma {:induction false} DecodeSymbolsPadded(b: seq<byte>)
    requires |b| % 3 != 0
    ensures DecodeSymbols(EncodeToString(b) + Padding(|b|)) == Decoded(b[..|b| - |b| % 3], false)
    decreases |b|
  {
    if |b| <= 3 {
      PaddedGroupRejected(b);
    } else {
      var tail := b[3..];
      var q := EncodeGroup(b[..3]);
      var rest := EncodeToString(tail) + Padding(|tail|);
      PaddedStepShape(b);
      DecodeSymbolsStep(q, rest);
      DecodeSymbolsPadded(tail);
      GroupRoundTrip(b[..3]);
    }
  }

  lemma PaddedStepShape(b: seq<byte>)
    requires |b| > 3
    ensures EncodeToString(b) + Padding(|b|) == EncodeGroup(b[..3]) + (EncodeToString(b[3..]) + Padding(|b[3..]|))
    ensures b[..|b| - |b| % 3] == b[..3] + b[3..][..|b[3..]| - |b[3..]| % 3]
  {
    var n := |b|;
    assert (n - 3) % 3 == n % 3;
    assert Padding(n - 3) == Padding(n);
  }

  lemma PaddedGroupRejected(g: seq<byte>)
    requires 1 <= |g| <= 2
    ensures DecodeSymbols(EncodeToString(g) + Padding(|g|)) == Decoded([], false)
  {
    assert EncodeToString(g) == EncodeGroup(g);
    assert |Padding(|g|)| == 3 - |g|;
    PaddedQuantumRejected(EncodeToString(g) + Padding(|g|));
  }

  lemma PaddedQuantumRejected(e: seq<byte>)
    requires |e| == 4 && e[3] == PAD
    ensures DecodeSymbols(e) == Decoded([], false)
  {
    assert e[..4] == e && !IsSymbol(e[3]);
  }

  /**
   * `DecodeString` succeeds exactly when every byte other than a carriage
   * return or line feed is a symbol of the alphabet, and those symbols do not
   * leave a lone one at the end.
   */
  lemma DecodeStringOkIff(s: GoString)
    ensures DecodeString(s).ok <==> SymbolsBetweenLineBreaks(s) && |StripLineBreaks(s)| % 4 != 1
  {
    DecodeSymbolsOkIff(StripLineBreaks(s));
    StripLineBreaksSymbols(s);
  }

  /** Every byte of `s` other than a line break is a symbol. */
  predicate SymbolsBetweenLineBreaks(s: seq<byte>) {
    forall i :: 0 <= i < |s| && s[i] != CR && s[i] != LF ==> IsSymbol(s[i])
  }

  lemma SymbolsBetweenLineBreaksCons(s: seq<byte>)
    requires |s| > 0
    ensures SymbolsBetweenLineBreaks(s) <==>
      (s[0] == CR || s[0] == LF || IsSymbol(s[0])) && SymbolsBetweenLineBreaks(s[1..])
  {
    if (s[0] == CR || s[0] == LF || IsSymbol(s[0])) && SymbolsBetweenLineBreaks(s[1..]) {
      forall i | 0 <= i < |s| && s[i] != CR && s[i] != LF ensures IsSymbol(s[i]) {
        if i > 0 {
          assert s[i] == s[1..][i - 1];
        }
      }
    }
  }

  lemma {:induction false} StripLineBreaksSymbols(s: seq<byte>)
    ensures AllSymbols(StripLineBreaks(s)) <==> SymbolsBetweenLineBreaks(s)
    decreases |s|
  {
    if |s| > 0 {
      StripLineBreaksSymbols(s[1..]);
      SymbolsBetweenLineBreaksCons(s);
      var t := StripLineBreaks(s[1..]);
      if s[0] != CR && s[0] != LF {
        assert StripLineBreaks(s) == [s[0]] + t;
        AllSymbolsSplit([s[0]] + t, 1);
        assert ([s[0]] + t)[1..] == t;
        assert ([s[0]] + t)[..1] == [s[0]];
        assert AllSymbols([s[0]]) <==> IsSymbol([s[0]][0]);
      }
    }
  }

  /** A full quantum of symbols followed by more input decodes one quantum and continues. */
  lemma DecodeSymbolsStep(q: seq<byte>, rest: seq<byte>)
    requires |q| == 4 && AllSymbols(q) && |rest| > 0
    ensures DecodeSymbols(q + rest) == Decoded(DecodeQuantum(q) + DecodeSymbols(rest).bytes, DecodeSymbols(rest).ok)
  {
    var t := q + rest;
    assert t[..4] == q && t[4..] == rest;
  }

  lemma DecodePadded(b: seq<byte>)
    requires |b| % 3 != 0
    ensures DecodeString(EncodeToString(b) + Padding(|b|)) == Decoded(b[..|b| - |b| % 3], false)
  {
    var enc := EncodeToString(b);
    var e := enc + Padding(|b|);
    forall i | 0 <= i < |e| ensures e[i] != CR && e[i] != LF {
      if i < |enc| {
        assert e[i] == enc[i] && IsSymbol(enc[i]);
      }
    }
    StripLineBreaksAbsent(e);
    DecodeSymbolsPadded(b);
  }
}
