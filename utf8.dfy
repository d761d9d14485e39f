/**
 * UTF-8 validation as `core::str::from_utf8` performs it: the well-formed byte
 * sequences of section 4 of RFC 3629 (no overlong forms, no surrogates, nothing
 * above U+10FFFF), and on failure an error that says how far the input is valid
 * (`valid_up_to`) and how long the offending run is (`error_len`, chosen by the
 * maximal-subpart rule of section 3.9 of the Unicode Standard; absent when the
 * input ends inside a sequence that could still be completed).
 */
module Utf8 {
  import opened Bytes

  /** How the first character of a non-empty byte string scans. */
  datatype Scan =
    | Char(width: nat)       // a well-formed sequence of `width` bytes
    | Invalid(len: nat)      // the first `len` bytes can start no well-formed sequence
    | Truncated              // the input ends inside a sequence that is well-formed so far

  predicate IsContinuation(b: byte)
  {
    0x80 <= b <= 0xBF
  }

  /** The sequence length announced by a lead byte; 0 for bytes that cannot lead. */
  function CharWidth(lead: byte): (w: nat)
    ensures w <= 4
  {
    if lead < 0x80 then 1
    else if lead < 0xC2 then 0
    else if lead < 0xE0 then 2
    else if lead < 0xF0 then 3
    else if lead < 0xF5 then 4
    else 0
  }

  /** The second byte allowed after a three-byte lead (excludes overlongs and surrogates). */
  predicate SecondOfThree(lead: byte, b: byte)
  {
    || (lead == 0xE0 && 0xA0 <= b <= 0xBF)
    || (0xE1 <= lead <= 0xEC && IsContinuation(b))
    || (lead == 0xED && 0x80 <= b <= 0x9F)
    || (0xEE <= lead <= 0xEF && IsContinuation(b))
  }

  /** The second byte allowed after a four-byte lead (excludes overlongs and values above U+10FFFF). */
  predicate SecondOfFour(lead: byte, b: byte)
  {
    || (lead == 0xF0 && 0x90 <= b <= 0xBF)
    || (0xF1 <= lead <= 0xF3 && IsContinuation(b))
    || (lead == 0xF4 && 0x80 <= b <= 0x8F)
  }

  /**
   * Classifies the character that starts at index `i` of `s`, reading its
   * bytes in order and stopping at the first byte that cannot continue it;
   * running out of input before that is `Truncated`.
   */
  function ScanAt(s: seq<byte>, i: nat): (r: Scan)
    requires i < |s|
    ensures r.Char? ==> 1 <= r.width <= 4 && i + r.width <= |s|
    ensures r.Invalid? ==> 1 <= r.len <= 3 && i + r.len <= |s|
    ensures r.Truncated? ==> 2 <= CharWidth(s[i]) && |s| - i < CharWidth(s[i])
  {
    var lead := s[i];
    var w := CharWidth(lead);
    var left := |s| - i;
    if w == 1 then Char(1)
    else if w == 2 then
      if left < 2 then Truncated
      else if !IsContinuation(s[i + 1]) then Invalid(1)
      else Char(2)
    else if w == 3 then
      if left < 2 then Truncated
      else if !SecondOfThree(lead, s[i + 1]) then Invalid(1)
      else if left < 3 then Truncated
      else if !IsContinuation(s[i + 2]) then Invalid(2)
      else Char(3)
    else if w == 4 then
      if left < 2 then Truncated
      else if !SecondOfFour(lead, s[i + 1]) then Invalid(1)
      else if left < 3 then Truncated
      else if !IsContinuation(s[i + 2]) then Invalid(2)
      else if left < 4 then Truncated
      else if !IsContinuation(s[i + 3]) then Invalid(3)
      else Char(4)
    else Invalid(1)
  }

  /** `core::str::Utf8Error`: `validUpTo` is an index into the whole input. */
  datatype Utf8Error = Utf8Error(validUpTo: nat, errorLen: Option<nat>)

  /** The result of `str::from_utf8`; on success the text is the input itself. */
  datatype Checked = Ok | Err(error: Utf8Error)

  /** Validation of `s` from index `i` on, character by character up to the first failure. */
  function FromUtf8At(s: seq<byte>, i: nat): (r: Checked)
    requires i <= |s|
    ensures r.Err? ==> i <= r.error.validUpTo < |s|
    ensures r.Err? && r.error.errorLen.Some? ==>
              1 <= r.error.errorLen.value <= 3 && r.error.validUpTo + r.error.errorLen.value <= |s|
    ensures r.Err? && r.error.errorLen.None? ==> |s| - r.error.validUpTo <= 3
    decreases |s| - i
  {
    if i == |s| then Ok
    else
      match ScanAt(s, i)
      case Char(w) => FromUtf8At(s, i + w)
      case Invalid(n) => Err(Utf8Error(i, Some(n)))
      case Truncated => Err(Utf8Error(i, None))
  }

  /** `str::from_utf8`. */
  function FromUtf8(s: seq<byte>): (r: Checked)
    ensures r.Err? ==> r.error.validUpTo < |s|
    ensures r.Err? && r.error.errorLen.Some? ==>
              1 <= r.error.errorLen.value <= 3 && r.error.validUpTo + r.error.errorLen.value <= |s|
    ensures r.Err? && r.error.errorLen.None? ==> |s| - r.error.validUpTo <= 3
  {
    FromUtf8At(s, 0)
  }

  /** Well-formed UTF-8, i.e. a byte string that may be viewed as `&str`. */
  predicate Valid(s: seq<byte>)
  {
    FromUtf8(s).Ok?
  }

  /** `s` is well-formed from index `i` on. */
  predicate ValidFrom(s: seq<byte>, i: nat)
    requires i <= |s|
  {
    FromUtf8At(s, i).Ok?
  }

  // ---------------------------------------------------------------------------
  // Locality of the scanner

  /** A character scanned in a prefix scans the same way in the whole input, and back. */
  lemma ScanPrefix(s: seq<byte>, k: nat, i: nat)
    requires i < k <= |s|
    ensures ScanAt(s[..k], i).Char? ==> ScanAt(s, i) == ScanAt(s[..k], i)
    ensures ScanAt(s, i).Char? && i + ScanAt(s, i).width <= k ==> ScanAt(s[..k], i) == ScanAt(s, i)
  {
  }

  /** The scanner reads the same character behind any prefix. */
  lemma ScanShift(p: seq<byte>, q: seq<byte>, i: nat)
    requires i < |q|
    ensures ScanAt(p + q, |p| + i) == ScanAt(q, i)
  {
    var s := p + q;
    assert s[|p| + i] == q[i];
    assert |q| - i >= 2 ==> s[|p| + i + 1] == q[i + 1];
    assert |q| - i >= 3 ==> s[|p| + i + 2] == q[i + 2];
    assert |q| - i >= 4 ==> s[|p| + i + 3] == q[i + 3];
  }

  /** `r` with its error index moved `d` bytes on. */
  function Shifted(r: Checked, d: nat): Checked
  {
    match r
    case Ok => Ok
    case Err(e) => Err(Utf8Error(e.validUpTo + d, e.errorLen))
  }

  /** Validating behind a prefix gives the same outcome, at indices moved by the prefix. */
  lemma {:induction false} FromShift(p: seq<byte>, q: seq<byte>, i: nat)
    requires i <= |q|
    ensures FromUtf8At(p + q, |p| + i) == Shifted(FromUtf8At(q, i), |p|)
    decreases |q| - i
  {
    if i < |q| {
      ScanShift(p, q, i);
      if ScanAt(q, i).Char? {
        FromShift(p, q, i + ScanAt(q, i).width);
      }
    }
  }

  /** Validity from an index is validity of what follows it. */
  lemma ValidFromDrop(s: seq<byte>, i: nat)
    requires i <= |s|
    ensures ValidFrom(s, i) <==> Valid(s[i..])
  {
    assert s[..i] + s[i..] == s;
    FromShift(s[..i], s[i..], 0);
  }

  /** Valid UTF-8 is closed under concatenation. */
  lemma ValidConcat(a: seq<byte>, b: seq<byte>)
    requires Valid(a) && Valid(b)
    ensures Valid(a + b)
  {
    ValidFromConcat(a, b, 0);
  }

  lemma {:induction false} ValidFromConcat(a: seq<byte>, b: seq<byte>, i: nat)
    requires i <= |a| && ValidFrom(a, i) && Valid(b)
    ensures ValidFrom(a + b, i)
    decreases |a| - i
  {
    if i == |a| {
      FromShift(a, b, 0);
    } else {
      var w := ScanAt(a, i).width;
      assert (a + b)[..|a|] == a;
      ScanPrefix(a + b, |a|, i);
      ValidFromConcat(a, b, i + w);
    }
  }

  /** Plain ASCII is valid UTF-8. */
  lemma AsciiValid(s: seq<byte>)
    requires IsAscii(s)
    ensures Valid(s)
  {
    AsciiValidFrom(s, 0);
  }

  lemma {:induction false} AsciiValidFrom(s: seq<byte>, i: nat)
    requires IsAscii(s) && i <= |s|
    ensures ValidFrom(s, i)
    decreases |s| - i
  {
    if i < |s| {
      assert ScanAt(s, i) == Char(1);
      AsciiValidFrom(s, i + 1);
    }
  }

  /** The input is valid up to `valid_up_to`. */
  lemma ValidUpToValid(s: seq<byte>)
    requires FromUtf8(s).Err?
    ensures Valid(s[..FromUtf8(s).error.validUpTo])
  {
    ValidBeforeError(s, 0);
  }

  lemma {:induction false} ValidBeforeError(s: seq<byte>, i: nat)
    requires i <= |s| && FromUtf8At(s, i).Err?
    ensures var v := FromUtf8At(s, i).error.validUpTo; ValidFrom(s[..v], i)
    decreases |s| - i
  {
    var v := FromUtf8At(s, i).error.validUpTo;
    if ScanAt(s, i).Char? {
      var w := ScanAt(s, i).width;
      ValidBeforeError(s, i + w);
      ScanPrefix(s, v, i);
    }
  }

  /**
   * `valid_up_to` is the largest index up to which the input is valid: no
   * longer prefix is valid.
   */
  lemma ValidUpToIsMaximal(s: seq<byte>)
    requires FromUtf8(s).Err?
    ensures forall k :: FromUtf8(s).error.validUpTo < k <= |s| ==> !Valid(s[..k])
  {
    forall k | FromUtf8(s).error.validUpTo < k <= |s|
      ensures !Valid(s[..k])
    {
      InvalidPastError(s, 0, k);
    }
  }

  lemma {:induction false} InvalidPastError(s: seq<byte>, i: nat, k: nat)
    requires i <= |s| && FromUtf8At(s, i).Err?
    requires FromUtf8At(s, i).error.validUpTo < k <= |s|
    ensures !ValidFrom(s[..k], i)
    decreases |s| - i
  {
    ScanPrefix(s, k, i);
    if ScanAt(s, i).Char? {
      InvalidPastError(s, i + ScanAt(s, i).width, k);
    }
  }

  /** A valid input splits into its first character and a valid rest. */
  lemma ValidFirst(s: seq<byte>)
    requires Valid(s) && s != []
    ensures var w := ScanAt(s, 0).width; ScanAt(s[..w], 0) == Char(w) && Valid(s[w..])
  {
    var w := ScanAt(s, 0).width;
    ScanPrefix(s, w, 0);
    ValidFromDrop(s, w);
  }

  // ---------------------------------------------------------------------------
  // Section 3 of RFC 3629: the encoding of a Unicode scalar value

  /** A Unicode scalar value: a code point that is not a surrogate. */
  predicate IsScalar(cp: nat)
  {
    cp <= 0x10FFFF && !(0xD800 <= cp <= 0xDFFF)
  }

  /** The UTF-8 encoding of one scalar value, by the bit patterns of RFC 3629. */
  function Encode(cp: nat): (r: seq<byte>)
    requires IsScalar(cp)
    ensures 1 <= |r| <= 4
  {
    if cp < 0x80 then [cp as byte]
    else if cp < 0x800 then [(0xC0 + cp / 64) as byte, (0x80 + cp % 64) as byte]
    else if cp < 0x10000 then
      [(0xE0 + cp / 4096) as byte, (0x80 + cp / 64 % 64) as byte, (0x80 + cp % 64) as byte]
    else
      [(0xF0 + cp / 262144) as byte, (0x80 + cp / 4096 % 64) as byte,
       (0x80 + cp / 64 % 64) as byte, (0x80 + cp % 64) as byte]
  }

  /** The scalar value that one well-formed sequence `t` encodes. */
  function DecodeChar(t: seq<byte>): nat
    requires |t| > 0 && ScanAt(t, 0) == Char(|t|)
  {
    if |t| == 1 then t[0] as nat
    else if |t| == 2 then (t[0] as nat - 0xC0) * 64 + (t[1] as nat - 0x80)
    else if |t| == 3 then
      (t[0] as nat - 0xE0) * 4096 + (t[1] as nat - 0x80) * 64 + (t[2] as nat - 0x80)
    else
      (t[0] as nat - 0xF0) * 262144 + (t[1] as nat - 0x80) * 4096
        + (t[2] as nat - 0x80) * 64 + (t[3] as nat - 0x80)
  }

  lemma DivMod64(hi: nat, lo: nat)
    requires lo < 64
    ensures (hi * 64 + lo) / 64 == hi && (hi * 64 + lo) % 64 == lo
  {
  }

  lemma DivMod4096(hi: nat, lo: nat)
    requires lo < 4096
    ensures (hi * 4096 + lo) / 4096 == hi && (hi * 4096 + lo) % 4096 == lo
  {
  }

  /** The 6-bit groups of a code point that takes three bytes. */
  lemma ThreeGroups(cp: nat) returns (a: nat, m: nat, c: nat)
    requires 0x800 <= cp < 0x10000 && !(0xD800 <= cp <= 0xDFFF)
    ensures cp / 4096 == a && cp / 64 % 64 == m && cp % 64 == c
    ensures a < 16 && m < 64 && c < 64 && (a == 0 ==> m >= 32) && (a == 13 ==> m < 32)
  {
    var rem := cp % 4096;
    a, m, c := cp / 4096, rem / 64, rem % 64;
    assert cp == (a * 64 + m) * 64 + c;
    DivMod64(a * 64 + m, c);
    DivMod64(a, m);
  }

  /** The 6-bit groups of a code point that takes four bytes. */
  lemma FourGroups(cp: nat) returns (a: nat, m: nat, k: nat, c: nat)
    requires 0x10000 <= cp <= 0x10FFFF
    ensures cp / 262144 == a && cp / 4096 % 64 == m && cp / 64 % 64 == k && cp % 64 == c
    ensures a <= 4 && m < 64 && k < 64 && c < 64 && (a == 0 ==> m >= 16) && (a == 4 ==> m < 16)
  {
    var rem := cp % 262144;
    var rem2 := rem % 4096;
    a, m, k, c := cp / 262144, rem / 4096, rem2 / 64, rem2 % 64;
    assert cp == (a * 64 + m) * 4096 + rem2;
    DivMod4096(a * 64 + m, rem2);
    DivMod64(a, m);
    assert cp == ((a * 64 + m) * 64 + k) * 64 + c;
    DivMod64((a * 64 + m) * 64 + k, c);
    DivMod64(a * 64 + m, k);
  }

  lemma EncodeThreeScans(cp: nat)
    requires 0x800 <= cp < 0x10000 && !(0xD800 <= cp <= 0xDFFF)
    ensures ScanAt(Encode(cp), 0) == Char(3)
  {
    var a, m, c := ThreeGroups(cp);
    var r := Encode(cp);
    assert r[0] == (0xE0 + a) as byte && r[1] == (0x80 + m) as byte && r[2] == (0x80 + c) as byte;
  }

  lemma EncodeFourScans(cp: nat)
    requires 0x10000 <= cp <= 0x10FFFF
    ensures ScanAt(Encode(cp), 0) == Char(4)
  {
    var a, m, k, c := FourGroups(cp);
    var r := Encode(cp);
    assert r[0] == (0xF0 + a) as byte && r[1] == (0x80 + m) as byte;
    assert r[2] == (0x80 + k) as byte && r[3] == (0x80 + c) as byte;
  }

  /** Every scalar value encodes to exactly one character that the scanner accepts. */
  lemma EncodeScans(cp: nat)
    requires IsScalar(cp)
    ensures ScanAt(Encode(cp), 0) == Char(|Encode(cp)|)
  {
    if 0x800 <= cp < 0x10000 {
      EncodeThreeScans(cp);
    } else if 0x10000 <= cp {
      EncodeFourScans(cp);
    }
  }

  lemma DecodeTwo(t: seq<byte>)
    requires |t| == 2 && ScanAt(t, 0) == Char(2)
    ensures IsScalar(DecodeChar(t)) && Encode(DecodeChar(t)) == t
  {
    DivMod64(t[0] as nat - 0xC0, t[1] as nat - 0x80);
  }

  lemma DecodeThree(t: seq<byte>)
    requires |t| == 3 && ScanAt(t, 0) == Char(3)
    ensures IsScalar(DecodeChar(t)) && Encode(DecodeChar(t)) == t
  {
    var a, b, c := t[0] as nat - 0xE0, t[1] as nat - 0x80, t[2] as nat - 0x80;
    var cp := DecodeChar(t);
    assert cp == (a * 64 + b) * 64 + c;
    DivMod64(a * 64 + b, c);
    DivMod64(a, b);
    assert cp / 64 == a * 64 + b;
    assert cp / 4096 == a by {
      assert cp == a * 4096 + (b * 64 + c);
    }
  }

  lemma DecodeFour(t: seq<byte>)
    requires |t| == 4 && ScanAt(t, 0) == Char(4)
    ensures IsScalar(DecodeChar(t)) && Encode(DecodeChar(t)) == t
  {
    var a, b, c, d := t[0] as nat - 0xF0, t[1] as nat - 0x80, t[2] as nat - 0x80, t[3] as nat - 0x80;
    var cp := DecodeChar(t);
    assert cp == ((a * 64 + b) * 64 + c) * 64 + d;
    DivMod64((a * 64 + b) * 64 + c, d);
    DivMod64(a * 64 + b, c);
    DivMod64(a, b);
    assert cp / 4096 == a * 64 + b by {
      assert cp == (a * 64 + b) * 4096 + (c * 64 + d);
    }
    assert cp / 262144 == a by {
      assert cp == a * 262144 + (b * 4096 + c * 64 + d);
    }
  }

  /** Every character the scanner accepts is the encoding of a scalar value. */
  lemma DecodeEncodes(t: seq<byte>)
    requires |t| > 0 && ScanAt(t, 0) == Char(|t|)
    ensures IsScalar(DecodeChar(t)) && Encode(DecodeChar(t)) == t
  {
    if |t| == 2 {
      DecodeTwo(t);
    } else if |t| == 3 {
      DecodeThree(t);
    } else if |t| == 4 {
      DecodeFour(t);
    }
  }

  /** The encodings of a sequence of scalar values, one after another. */
  function EncodeAll(cps: seq<nat>): seq<byte>
    requires forall i :: 0 <= i < |cps| ==> IsScalar(cps[i])
    decreases |cps|
  {
    if cps == [] then [] else Encode(cps[0]) + EncodeAll(cps[1..])
  }

  /** The scalar values of a valid byte string. */
  function DecodeAll(s: seq<byte>): (cps: seq<nat>)
    requires Valid(s)
    ensures forall i :: 0 <= i < |cps| ==> IsScalar(cps[i])
    decreases |s|
  {
    if s == [] then []
    else
      var w := ScanAt(s, 0).width;
      ValidFirst(s);
      DecodeEncodes(s[..w]);
      [DecodeChar(s[..w])] + DecodeAll(s[w..])
  }

  /** Encoding any scalar values gives valid UTF-8. */
  lemma {:induction false} EncodeAllValid(cps: seq<nat>)
    requires forall i :: 0 <= i < |cps| ==> IsScalar(cps[i])
    ensures Valid(EncodeAll(cps))
    decreases |cps|
  {
    if cps != [] {
      var e := Encode(cps[0]);
      EncodeScans(cps[0]);
      assert Valid(e);
      EncodeAllValid(cps[1..]);
      ValidConcat(e, EncodeAll(cps[1..]));
    }
  }

  /** Decoding takes off the first character and goes on with the rest. */
  lemma DecodeAllFirst(s: seq<byte>)
    requires Valid(s) && s != []
    ensures var w := ScanAt(s, 0).width;
            && Valid(s[w..]) && |DecodeAll(s)| > 0
            && DecodeAll(s)[0] == DecodeChar(s[..w]) && DecodeAll(s)[1..] == DecodeAll(s[w..])
            && Encode(DecodeAll(s)[0]) == s[..w]
  {
    var w := ScanAt(s, 0).width;
    ValidFirst(s);
    DecodeEncodes(s[..w]);
  }

  lemma EncodeAllFirst(cps: seq<nat>)
    requires cps != [] && forall i :: 0 <= i < |cps| ==> IsScalar(cps[i])
    ensures EncodeAll(cps) == Encode(cps[0]) + EncodeAll(cps[1..])
  {
  }

  /** Valid UTF-8 is exactly the encoding of its scalar values. */
  lemma {:induction false} ValidIsEncoding(s: seq<byte>)
    requires Valid(s)
    ensures EncodeAll(DecodeAll(s)) == s
    decreases |s|
  {
    if s != [] {
      var w := ScanAt(s, 0).width;
      DecodeAllFirst(s);
      ValidIsEncoding(s[w..]);
      EncodeAllFirst(DecodeAll(s));
      SplitJoin(s, w);
    }
  }

  // ---------------------------------------------------------------------------
  // What `error_len` means: the maximal-subpart rule

  /** `t` can still become a character: it is a prefix of the encoding of some scalar value. */
  ghost predicate Completable(t: seq<byte>)
  {
    exists cp :: IsScalar(cp) && |t| <= |Encode(cp)| && Encode(cp)[..|t|] == t
  }

  /** The second byte a lead byte of width `CharWidth(lead)` allows. */
  predicate SecondOk(lead: byte, b: byte)
  {
    var w := CharWidth(lead);
    (w == 2 && IsContinuation(b)) || (w == 3 && SecondOfThree(lead, b)) || (w == 4 && SecondOfFour(lead, b))
  }

  /** A multi-byte sequence begun but not finished, every byte so far allowed where it stands. */
  predicate Unfinished(t: seq<byte>)
  {
    && 1 <= |t| < CharWidth(t[0])
    && (|t| >= 2 ==> SecondOk(t[0], t[1]))
    && (forall j :: 2 <= j < |t| ==> IsContinuation(t[j]))
  }

  /** The smallest second byte a lead byte allows. */
  function LowSecond(lead: byte): byte
  {
    if lead == 0xE0 then 0xA0 else if lead == 0xF0 then 0x90 else 0x80
  }

  /** An unfinished sequence can be completed: to a character, with the smallest bytes allowed. */
  lemma UnfinishedCompletable(t: seq<byte>)
    requires Unfinished(t)
    ensures Completable(t)
  {
    var w := CharWidth(t[0]);
    var fill := seq(w - |t|, k requires 0 <= k < w - |t| => if |t| + k == 1 then LowSecond(t[0]) else 0x80 as byte);
    var c := t + fill;
    assert c[0] == t[0] && c[1] == (if |t| >= 2 then t[1] else LowSecond(t[0]));
    assert w >= 3 ==> IsContinuation(c[2]);
    assert w >= 4 ==> IsContinuation(c[3]);
    assert ScanAt(c, 0) == Char(w);
    DecodeEncodes(c);
    var cp := DecodeChar(c);
    assert c[..|t|] == t;
    assert IsScalar(cp) && |t| <= |Encode(cp)| && Encode(cp)[..|t|] == t;
  }

  /** A prefix of a completable sequence is completable. */
  lemma CompletablePrefix(t: seq<byte>, k: nat)
    requires k <= |t|
    ensures Completable(t) ==> Completable(t[..k])
  {
    if Completable(t) {
      var cp :| IsScalar(cp) && |t| <= |Encode(cp)| && Encode(cp)[..|t|] == t;
      assert Encode(cp)[..k] == t[..k];
    }
  }

  /** Where the scanner stops reading on an invalid character: after the offending byte. */
  function InvalidEnd(s: seq<byte>, i: nat): (m: nat)
    requires i < |s| && ScanAt(s, i).Invalid?
    ensures i < m <= |s|
  {
    if i + ScanAt(s, i).len < |s| then i + ScanAt(s, i).len + 1 else i + ScanAt(s, i).len
  }

  /** The scanner finds an invalid character in any input that starts with the bytes it read. */
  lemma InvalidIsLocal(s: seq<byte>, i: nat, e: seq<byte>)
    requires i < |s| && ScanAt(s, i).Invalid?
    requires InvalidEnd(s, i) - i <= |e| && e[..InvalidEnd(s, i) - i] == s[i..InvalidEnd(s, i)]
    ensures ScanAt(e, 0) == ScanAt(s, i)
  {
    var m := InvalidEnd(s, i) - i;
    assert e[0] == s[i];
    assert m >= 2 ==> e[1] == s[i + 1];
    assert m >= 3 ==> e[2] == s[i + 2];
    assert m >= 4 ==> e[3] == s[i + 3];
  }

  /**
   * An invalid character: the bytes after its first one are continuation
   * bytes, the run is the longest that could still become a character (or
   * one byte when none could), and with the byte after it no character is
   * possible.
   */
  lemma InvalidRunIsMaximal(s: seq<byte>, i: nat)
    requires i < |s| && ScanAt(s, i).Invalid?
    ensures var n := ScanAt(s, i).len;
            && (forall j :: i < j < i + n ==> IsContinuation(s[j]))
            && (n == 1 || Completable(s[i..i + n]))
            && !Completable(s[i..InvalidEnd(s, i)])
  {
    var n := ScanAt(s, i).len;
    if n >= 2 {
      assert Unfinished(s[i..i + n]);
      UnfinishedCompletable(s[i..i + n]);
    }
    var t := s[i..InvalidEnd(s, i)];
    if Completable(t) {
      var cp :| IsScalar(cp) && |t| <= |Encode(cp)| && Encode(cp)[..|t|] == t;
      InvalidIsLocal(s, i, Encode(cp));
      EncodeScans(cp);
    }
  }

  /** Input that ends inside a character: what is left is an unfinished character. */
  lemma TruncatedIsUnfinished(s: seq<byte>, i: nat)
    requires i < |s| && ScanAt(s, i) == Truncated
    ensures (forall j :: i < j < |s| ==> IsContinuation(s[j])) && Completable(s[i..])
  {
    assert Unfinished(s[i..]);
    UnfinishedCompletable(s[i..]);
  }

  /** The error of `from_utf8` from index `i` on reports how the character at `valid_up_to` scans. */
  lemma {:induction false} ErrorScan(s: seq<byte>, i: nat)
    requires i <= |s| && FromUtf8At(s, i).Err?
    ensures var e := FromUtf8At(s, i).error;
            && (e.errorLen.Some? ==> ScanAt(s, e.validUpTo) == Invalid(e.errorLen.value))
            && (e.errorLen.None? ==> ScanAt(s, e.validUpTo) == Truncated)
    decreases |s| - i
  {
    if ScanAt(s, i).Char? {
      ErrorScan(s, i + ScanAt(s, i).width);
    }
  }

  /** An invalid run is maximal, and no character can complete the rest of the input from its start. */
  lemma InvalidRestNotCompletable(s: seq<byte>, v: nat)
    requires v < |s| && ScanAt(s, v).Invalid?
    ensures var n := ScanAt(s, v).len;
            && (forall j :: v < j < v + n ==> IsContinuation(s[j]))
            && (n == 1 || Completable(s[v..v + n]))
            && !Completable(s[v..if v + n < |s| then v + n + 1 else v + n])
            && !Completable(s[v..])
  {
    InvalidRunIsMaximal(s, v);
    var m := InvalidEnd(s, v);
    assert s[v..][..m - v] == s[v..m];
    CompletablePrefix(s[v..], m - v);
  }

  /**
   * `error_len` by the maximal-subpart rule of section 3.9 of the Unicode
   * Standard: it is absent exactly when the rest of the input is a character
   * begun but not finished; otherwise it counts the longest run at
   * `valid_up_to` that could still become a character (at least one byte),
   * and that run followed by the next byte could not. Inside the run only
   * continuation bytes follow its first byte, so no character starts there.
   */
  lemma ErrorLenIsMaximal(s: seq<byte>)
    requires FromUtf8(s).Err?
    ensures var e := FromUtf8(s).error;
            var v := e.validUpTo;
            var n := if e.errorLen.Some? then e.errorLen.value else |s| - v;
            && !ScanAt(s, v).Char?
            && (e.errorLen.None? <==> Completable(s[v..]))
            && (forall j :: v < j < v + n ==> IsContinuation(s[j]))
            && (e.errorLen.Some? ==>
                  && (n == 1 || Completable(s[v..v + n]))
                  && !Completable(s[v..if v + n < |s| then v + n + 1 else v + n]))
  {
    var e := FromUtf8(s).error;
    var v := e.validUpTo;
    ErrorScan(s, 0);
    if e.errorLen.Some? {
      InvalidRestNotCompletable(s, v);
    } else {
      TruncatedIsUnfinished(s, v);
    }
  }
}
