/**
 * Strict UTF-16LE decoding, as bytes.decode('utf-16-le') does it with the
 * default 'strict' error handler: a high surrogate must be followed by a low
 * one and the two combine into one supplementary code point; any other
 * surrogate is an error. The encoder is the decoder's partner: decoding
 * inverts encoding, and a successful decode is inverted by encoding.
 */
module Utf16 {
  import opened Wrappers

  type Byte = b: int | 0 <= b < 0x100
  type CodeUnit = u: int | 0 <= u < 0x1_0000

  /** The reasons the strict decoder gives up. */
  datatype DecodeError =
    | TruncatedData     // an odd trailing byte
    | UnexpectedEnd     // a high surrogate as the last code unit
    | IllegalSurrogate  // a high surrogate followed by something other than a low one
    | IllegalEncoding   // a low surrogate where a character should start

  predicate IsHigh(u: int) { 0xD800 <= u <= 0xDBFF }
  predicate IsLow(u: int) { 0xDC00 <= u <= 0xDFFF }

  /** The code point a surrogate pair stands for. */
  function Combine(hi: CodeUnit, lo: CodeUnit): (c: char)
    requires IsHigh(hi) && IsLow(lo)
    ensures 0x1_0000 <= c as int <= 0x10_FFFF
  {
    (0x1_0000 + (hi - 0xD800) * 0x400 + (lo - 0xDC00)) as char
  }

  /** Little-endian pairing of bytes into code units; an odd trailing byte is not paired. */
  function BytesToUnits(b: seq<Byte>): (u: seq<CodeUnit>)
    ensures |u| == |b| / 2
  {
    seq(|b| / 2, i requires 0 <= i < |b| / 2 => b[2 * i] as int + 0x100 * b[2 * i + 1] as int)
  }

  function UnitsToBytes(u: seq<CodeUnit>): (b: seq<Byte>)
    ensures |b| == 2 * |u|
  {
    if u == [] then [] else [u[0] % 0x100, u[0] / 0x100] + UnitsToBytes(u[1..])
  }

  function DecodeUnits(units: seq<CodeUnit>): (r: Result<string, DecodeError>)
    ensures r.Success? ==> |r.value| <= |units|
    decreases |units|
  {
    if units == [] then Success([])
    else if IsLow(units[0]) then Failure(IllegalEncoding)
    else if IsHigh(units[0]) then
      if |units| == 1 then Failure(UnexpectedEnd)
      else if !IsLow(units[1]) then Failure(IllegalSurrogate)
      else
        match DecodeUnits(units[2..])
        case Failure(e) => Failure(e)
        case Success(rest) => Success([Combine(units[0], units[1])] + rest)
    else
      match DecodeUnits(units[1..])
      case Failure(e) => Failure(e)
      case Success(rest) => Success([units[0] as char] + rest)
  }

  /** bytes.decode('utf-16-le'): the paired units are decoded first, then an odd byte is an error. */
  function DecodeUtf16Le(b: seq<Byte>): (r: Result<string, DecodeError>)
    ensures r.Success? ==> |b| % 2 == 0 && |r.value| <= |b| / 2
  {
    match DecodeUnits(BytesToUnits(b))
    case Failure(e) => Failure(e)
    case Success(s) => if |b| % 2 != 0 then Failure(TruncatedData) else Success(s)
  }

  function EncodeChar(c: char): (u: seq<CodeUnit>)
  {
    var cp := c as int;
    if cp < 0x1_0000 then [cp]
    else [0xD800 + (cp - 0x1_0000) / 0x400, 0xDC00 + (cp - 0x1_0000) % 0x400]
  }

  function EncodeUnits(s: string): (u: seq<CodeUnit>)
  {
    if s == [] then [] else EncodeChar(s[0]) + EncodeUnits(s[1..])
  }

  function EncodeUtf16Le(s: string): (b: seq<Byte>)
  {
    UnitsToBytes(EncodeUnits(s))
  }

  /**
   * Well-formed UTF-16, stated position by position: every high surrogate is
   * followed by a low one and every low surrogate follows a high one.
   */
  ghost predicate WellFormed(u: seq<CodeUnit>) {
    && (forall i :: 0 <= i < |u| && IsHigh(u[i]) ==> i + 1 < |u| && IsLow(u[i + 1]))
    && (forall i :: 0 <= i < |u| && IsLow(u[i]) ==> 0 < i && IsHigh(u[i - 1]))
  }

  lemma EncodeCharDecodes(c: char)
    ensures |EncodeChar(c)| <= 2
    ensures |EncodeChar(c)| == 1 ==> !IsHigh(EncodeChar(c)[0]) && !IsLow(EncodeChar(c)[0])
                                     && EncodeChar(c)[0] as char == c
    ensures |EncodeChar(c)| == 2 ==> IsHigh(EncodeChar(c)[0]) && IsLow(EncodeChar(c)[1])
                                     && Combine(EncodeChar(c)[0], EncodeChar(c)[1]) == c
  {
    var cp := c as int;
    if cp >= 0x1_0000 {
      var d := cp - 0x1_0000;
      assert d == (d / 0x400) * 0x400 + d % 0x400;
    }
  }

  lemma CombineEncodes(hi: CodeUnit, lo: CodeUnit)
    requires IsHigh(hi) && IsLow(lo)
    ensures EncodeChar(Combine(hi, lo)) == [hi, lo]
  {
    var d := (hi - 0xD800) * 0x400 + (lo - 0xDC00);
    DivMod(d, hi - 0xD800, lo - 0xDC00, 0x400);
  }

  /** Quotient and remainder are unique, for the two divisors the codec uses. */
  lemma DivMod(d: int, q: int, r: int, n: int)
    requires n == 0x100 || n == 0x400
    requires 0 <= r < n && d == q * n + r
    ensures d / n == q && d % n == r
  {
    if n == 0x100 {
      assert d == q * 0x100 + r;
    } else {
      assert d == q * 0x400 + r;
    }
  }

  /** Decoding inverts encoding. */
  lemma {:induction false} DecodeEncodeUnits(s: string)
    ensures DecodeUnits(EncodeUnits(s)) == Success(s)
  {
    if s != [] {
      var e := EncodeChar(s[0]);
      var rest := EncodeUnits(s[1..]);
      DecodeEncodeUnits(s[1..]);
      EncodeCharDecodes(s[0]);
      var u := e + rest;
      if |e| == 1 {
        assert u[0] == e[0] && u[1..] == rest;
      } else {
        assert u[0] == e[0] && u[1] == e[1] && u[2..] == rest;
      }
      assert s == [s[0]] + s[1..];
    }
  }

  /** Encoding inverts every successful decode: the decoder drops nothing and invents nothing. */
  lemma {:induction false} EncodeDecodeUnits(u: seq<CodeUnit>)
    requires DecodeUnits(u).Success?
    ensures EncodeUnits(DecodeUnits(u).value) == u
    decreases |u|
  {
    if u != [] {
      if IsHigh(u[0]) {
        EncodeDecodeUnits(u[2..]);
        CombineEncodes(u[0], u[1]);
        assert u == [u[0], u[1]] + u[2..];
      } else {
        EncodeDecodeUnits(u[1..]);
        assert u == [u[0]] + u[1..];
      }
    }
  }

  /** The strict decoder accepts exactly the well-formed code-unit sequences. */
  lemma {:induction false} DecodeUnitsSucceedsIffWellFormed(u: seq<CodeUnit>)
    ensures DecodeUnits(u).Success? <==> WellFormed(u)
    decreases |u|
  {
    if u == [] {
    } else if IsLow(u[0]) {
      assert !WellFormed(u);
    } else if IsHigh(u[0]) {
      if |u| == 1 {
        assert !WellFormed(u);
      } else if !IsLow(u[1]) {
        assert !WellFormed(u);
      } else {
        var t := u[2..];
        DecodeUnitsSucceedsIffWellFormed(t);
        if WellFormed(u) {
          forall i | 0 <= i < |t| && IsHigh(t[i]) ensures i + 1 < |t| && IsLow(t[i + 1]) {
            assert IsHigh(u[i + 2]);
          }
          forall i | 0 <= i < |t| && IsLow(t[i]) ensures 0 < i && IsHigh(t[i - 1]) {
            assert IsLow(u[i + 2]);
          }
        }
        if WellFormed(t) {
          forall i | 0 <= i < |u| && IsHigh(u[i]) ensures i + 1 < |u| && IsLow(u[i + 1]) {
            if i >= 2 { assert IsHigh(t[i - 2]); }
          }
          forall i | 0 <= i < |u| && IsLow(u[i]) ensures 0 < i && IsHigh(u[i - 1]) {
            if i >= 2 {
              assert IsLow(t[i - 2]);
              if i == 2 { assert false; }
            }
          }
        }
      }
    } else {
      var t := u[1..];
      DecodeUnitsSucceedsIffWellFormed(t);
      if WellFormed(u) {
        forall i | 0 <= i < |t| && IsHigh(t[i]) ensures i + 1 < |t| && IsLow(t[i + 1]) {
          assert IsHigh(u[i + 1]);
        }
        forall i | 0 <= i < |t| && IsLow(t[i]) ensures 0 < i && IsHigh(t[i - 1]) {
          assert IsLow(u[i + 1]);
        }
      }
      if WellFormed(t) {
        forall i | 0 <= i < |u| && IsHigh(u[i]) ensures i + 1 < |u| && IsLow(u[i + 1]) {
          if i >= 1 { assert IsHigh(t[i - 1]); }
        }
        forall i | 0 <= i < |u| && IsLow(u[i]) ensures 0 < i && IsHigh(u[i - 1]) {
          if i >= 1 { assert IsLow(t[i - 1]); }
        }
      }
    }
  }

  lemma {:induction false} UnitsBytesRoundTrip(u: seq<CodeUnit>)
    ensures BytesToUnits(UnitsToBytes(u)) == u
    decreases |u|
  {
    if u != [] {
      UnitsBytesRoundTrip(u[1..]);
      var b := UnitsToBytes(u);
      var t := UnitsToBytes(u[1..]);
      assert b == [u[0] % 0x100, u[0] / 0x100] + t;
      forall i | 0 <= i < |u| ensures BytesToUnits(b)[i] == u[i] {
        if i == 0 {
          assert b[0] as int + 0x100 * b[1] as int == u[0];
        } else {
          assert b[2 * i] == t[2 * (i - 1)] && b[2 * i + 1] == t[2 * (i - 1) + 1];
          assert BytesToUnits(t)[i - 1] == u[1..][i - 1];
        }
      }
    }
  }

  lemma {:induction false} BytesUnitsRoundTrip(b: seq<Byte>)
    requires |b| % 2 == 0
    ensures UnitsToBytes(BytesToUnits(b)) == b
    decreases |b|
  {
    if b != [] {
      var u := BytesToUnits(b);
      BytesUnitsRoundTrip(b[2..]);
      assert u[1..] == BytesToUnits(b[2..]);
      DivMod(u[0], b[1], b[0], 0x100);
      assert b == [b[0], b[1]] + b[2..];
    }
  }

  /** Byte-level round trip: decoding the UTF-16LE encoding of any string gives it back. */
  lemma DecodeEncode(s: string)
    ensures DecodeUtf16Le(EncodeUtf16Le(s)) == Success(s)
  {
    UnitsBytesRoundTrip(EncodeUnits(s));
    DecodeEncodeUnits(s);
  }

  /**
   * Byte-level converse: the decoder succeeds exactly on the even-length
   * buffers whose code units are well formed, and then the buffer is the
   * encoding of what it decoded to.
   */
  lemma DecodeSucceeds(b: seq<Byte>)
    ensures DecodeUtf16Le(b).Success? <==> |b| % 2 == 0 && WellFormed(BytesToUnits(b))
    ensures DecodeUtf16Le(b).Success? ==> EncodeUtf16Le(DecodeUtf16Le(b).value) == b
  {
    DecodeUnitsSucceedsIffWellFormed(BytesToUnits(b));
    if DecodeUtf16Le(b).Success? {
      EncodeDecodeUnits(BytesToUnits(b));
      BytesUnitsRoundTrip(b);
    }
  }
}
