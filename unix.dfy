/**
 * Rendering a POSIX error message: the raw `strerror` bytes, in the encoding
 * that `nl_langinfo(CODESET)` names, become text that is always valid UTF-8.
 * Bytes that cannot be shown are escaped as `\x` and two lowercase hex digits.
 */
module Unix {
  import opened Bytes
  import Utf8
  import opened Fmt
  import Iconv

  // ---------------------------------------------------------------------------
  // write_fallback: one escape token per byte

  const Backslash: byte := 0x5C
  const LowerX: byte := 0x78

  /** ASCII `0`-`9` and lowercase `a`-`f`. */
  predicate IsHexDigit(c: byte)
  {
    0x30 <= c <= 0x39 || 0x61 <= c <= 0x66
  }

  function HexValue(c: byte): (d: nat)
    requires IsHexDigit(c)
    ensures d < 16
  {
    if c <= 0x39 then (c - 0x30) as nat else (c - 0x61) as nat + 10
  }

  /** The lowercase hex digit of a nibble, as `{:x}` prints it. */
  function HexDigit(d: nat): (c: byte)
    requires d < 16
    ensures IsHexDigit(c) && HexValue(c) == d
  {
    if d < 10 then (0x30 + d) as byte else (0x61 + d - 10) as byte
  }

  /** What `write!(f, "\\x{:02x}", b)` writes. */
  function Token(b: byte): seq<byte>
  {
    [Backslash, LowerX, HexDigit(b as nat / 16), HexDigit(b as nat % 16)]
  }

  /** The writes of `write_fallback`: one token per byte, in input order. */
  function Tokens(s: seq<byte>): seq<seq<byte>>
  {
    seq(|s|, i requires 0 <= i < |s| => Token(s[i]))
  }

  /** Everything `write_fallback` writes, as one byte string. */
  function Escaped(s: seq<byte>): seq<byte>
  {
    Flatten(Tokens(s))
  }

  /** Reads a string of escape tokens back into the bytes they stand for. */
  function Unescape(t: seq<byte>): Option<seq<byte>>
    decreases |t|
  {
    if t == [] then Some([])
    else if |t| >= 4 && t[0] == Backslash && t[1] == LowerX && IsHexDigit(t[2]) && IsHexDigit(t[3]) then
      match Unescape(t[4..])
      case None => None
      case Some(rest) => Some([(HexValue(t[2]) * 16 + HexValue(t[3])) as byte] + rest)
    else None
  }

  lemma EscapedCons(s: seq<byte>)
    requires s != []
    ensures Escaped(s) == Token(s[0]) + Escaped(s[1..])
  {
    assert Tokens(s)[1..] == Tokens(s[1..]);
  }

  /** A token is four ASCII bytes, `\x` and two lowercase hex digits that spell the byte. */
  lemma TokenShape(b: byte)
    ensures |Token(b)| == 4 && IsAscii(Token(b))
    ensures Token(b)[0] == Backslash && Token(b)[1] == LowerX
    ensures IsHexDigit(Token(b)[2]) && IsHexDigit(Token(b)[3])
    ensures HexValue(Token(b)[2]) * 16 + HexValue(Token(b)[3]) == b as nat
  {
  }

  /** The escape of `s` is `4 * |s|` ASCII bytes, token `i` standing for `s[i]`. */
  lemma {:induction false} EscapedShape(s: seq<byte>)
    ensures |Escaped(s)| == 4 * |s| && IsAscii(Escaped(s))
    ensures forall i :: 0 <= i < |s| ==> Escaped(s)[4 * i..4 * i + 4] == Token(s[i])
    decreases |s|
  {
    if s != [] {
      EscapedCons(s);
      EscapedShape(s[1..]);
      TokenShape(s[0]);
      var e := Escaped(s);
      forall i | 0 <= i < |s|
        ensures e[4 * i..4 * i + 4] == Token(s[i])
      {
        if i > 0 {
          assert e[4 * i..4 * i + 4] == Escaped(s[1..])[4 * (i - 1)..4 * (i - 1) + 4];
        }
      }
    } else {
      assert Tokens(s) == [];
    }
  }

  lemma HexRoundTrip(c: byte)
    requires IsHexDigit(c)
    ensures HexDigit(HexValue(c)) == c
  {
  }

  lemma TokenOfDigits(t: seq<byte>)
    requires |t| >= 4 && t[0] == Backslash && t[1] == LowerX && IsHexDigit(t[2]) && IsHexDigit(t[3])
    ensures Token((HexValue(t[2]) * 16 + HexValue(t[3])) as byte) == t[..4]
  {
    var hi, lo := HexValue(t[2]), HexValue(t[3]);
    assert (hi * 16 + lo) / 16 == hi && (hi * 16 + lo) % 16 == lo;
    HexRoundTrip(t[2]);
    HexRoundTrip(t[3]);
  }

  /** Unescaping inverts escaping, and only an escape rendering unescapes. */
  lemma {:induction false} UnescapeInverts(t: seq<byte>, s: seq<byte>)
    ensures Unescape(t) == Some(s) <==> t == Escaped(s)
    decreases |t|
  {
    if t == Escaped(s) {
      EscapedRoundTrip(s);
    }
    if Unescape(t) == Some(s) && t != [] {
      TokenOfDigits(t);
      var rest := Unescape(t[4..]).value;
      UnescapeInverts(t[4..], rest);
      EscapedCons(s);
      assert t == t[..4] + t[4..];
    } else if Unescape(t) == Some(s) {
      assert Tokens(s) == [];
    }
  }

  lemma {:induction false} EscapedRoundTrip(s: seq<byte>)
    ensures Unescape(Escaped(s)) == Some(s)
    decreases |s|
  {
    if s == [] {
      assert Tokens(s) == [];
    } else {
      EscapedCons(s);
      EscapedRoundTrip(s[1..]);
      var e := Escaped(s);
      TokenShape(s[0]);
      assert e[4..] == Escaped(s[1..]);
      assert e[..4] == Token(s[0]);
      assert [s[0]] + s[1..] == s;
    }
  }

  /** `write_fallback(f, s)`: writes the token of every byte of `s`, in order, stopping at a failed write. */
  method WriteFallback(f: Formatter, s: seq<byte>) returns (r: FmtResult)
    modifies f
    ensures Performed(Tokens(s), f.failAt, old(f.text), old(f.writes), f.text, f.writes, r)
  {
    ghost var ops := Tokens(s);
    for i := 0 to |s|
      invariant f.writes == old(f.writes) + i && !Hits(f.failAt, old(f.writes), i)
      invariant f.text == old(f.text) + Flatten(ops[..i])
    {
      TokenShape(s[i]);
      Utf8.AsciiValid(Token(s[i]));
      r := f.WriteStr(Token(s[i]));
      if r == Err {
        return;
      }
      assert ops[..i + 1] == ops[..i] + [ops[i]];
      FlattenAppend(ops[..i], [ops[i]]);
    }
    assert ops[..|s|] == ops;
    r := Ok;
  }

  // ---------------------------------------------------------------------------
  // write_utf8_lossy: valid runs verbatim, invalid runs escaped

  /** One write of `write_utf8_lossy`: a valid run shown as is, or one escaped byte. */
  datatype Piece = Text(text: seq<byte>) | Esc(b: byte)

  function Escapes(u: seq<byte>): seq<Piece>
  {
    seq(|u|, i requires 0 <= i < |u| => Esc(u[i]))
  }

  /** A run of bytes: where it starts and how many bytes it has. */
  datatype Run = Run(start: nat, len: nat)

  /**
   * Where the next invalid run of an invalid input starts and how long it is:
   * it starts at `valid_up_to` and is `error_len` bytes long, or reaches the
   * end of the input when `error_len` is None.
   */
  function InvalidRun(s: seq<byte>): (run: Run)
    requires !Utf8.Valid(s)
    ensures 0 < run.len && run.start + run.len <= |s|
  {
    var e := Utf8.FromUtf8(s).error;
    Run(e.validUpTo, if e.errorLen.Some? then e.errorLen.value else |s| - e.validUpTo)
  }

  /**
   * How `write_utf8_lossy` cuts its input: the valid prefix, then the bytes
   * of the invalid run one by one, then the same again on the tail.
   */
  function Pieces(s: seq<byte>): seq<Piece>
    decreases |s|
  {
    if Utf8.Valid(s) then [Text(s)]
    else
      var v, n := InvalidRun(s).start, InvalidRun(s).len;
      [Text(s[..v])] + Escapes(s[v..v + n]) + Pieces(s[v + n..])
  }

  function Render(p: Piece): seq<byte>
  {
    match p
    case Text(t) => t
    case Esc(b) => Token(b)
  }

  function Renders(ps: seq<Piece>): seq<seq<byte>>
  {
    seq(|ps|, i requires 0 <= i < |ps| => Render(ps[i]))
  }

  /**
   * The writes of `write_utf8_lossy`, in order: the whole input when it is
   * valid, otherwise the valid prefix, one escape per byte of the invalid run
   * and then the writes for the tail.
   */
  function LossyOps(s: seq<byte>): seq<seq<byte>>
    decreases |s|
  {
    if Utf8.Valid(s) then [s]
    else
      var v, n := InvalidRun(s).start, InvalidRun(s).len;
      [s[..v]] + Tokens(s[v..v + n]) + LossyOps(s[v + n..])
  }

  /** The input bytes a piece stands for. */
  function Origin(p: Piece): seq<byte>
  {
    match p
    case Text(t) => t
    case Esc(b) => [b]
  }

  function Origins(ps: seq<Piece>): seq<seq<byte>>
  {
    seq(|ps|, i requires 0 <= i < |ps| => Origin(ps[i]))
  }

  /** Lays out the pieces of an input that is invalid UTF-8. */
  lemma PiecesOfInvalid(s: seq<byte>)
    requires !Utf8.Valid(s)
    ensures var v, n := InvalidRun(s).start, InvalidRun(s).len;
            && 0 < n && v + n <= |s| && Utf8.Valid(s[..v])
            && Pieces(s) == [Text(s[..v])] + Escapes(s[v..v + n]) + Pieces(s[v + n..])
  {
    Utf8.ValidUpToValid(s);
  }

  /** The pieces of an invalid input, once its first invalid run is known to be `Run(v, n)`. */
  lemma PiecesCut(s: seq<byte>, v: nat, n: nat, valid: seq<byte>, invalid: seq<byte>, tail: seq<byte>)
    requires !Utf8.Valid(s) && v == InvalidRun(s).start && n == InvalidRun(s).len
    requires valid == s[..v] && invalid == s[v..v + n] && tail == s[v + n..]
    ensures Pieces(s) == [Text(valid)] + Escapes(invalid) + Pieces(tail)
  {
    PiecesOfInvalid(s);
  }

  lemma OriginsText(t: seq<byte>)
    ensures Origins([Text(t)]) == [t]
  {
  }

  lemma FlatOriginsAppend(a: seq<Piece>, b: seq<Piece>)
    ensures Flatten(Origins(a + b)) == Flatten(Origins(a)) + Flatten(Origins(b))
  {
    assert Origins(a + b) == Origins(a) + Origins(b);
    FlattenAppend(Origins(a), Origins(b));
  }

  lemma {:induction false} OriginsOfEscapes(u: seq<byte>)
    ensures Flatten(Origins(Escapes(u))) == u
    decreases |u|
  {
    if u != [] {
      assert Origins(Escapes(u))[1..] == Origins(Escapes(u[1..]));
      OriginsOfEscapes(u[1..]);
      assert u == [u[0]] + u[1..];
    } else {
      assert Origins(Escapes(u)) == [];
    }
  }

  /**
   * Every input byte is consumed exactly once and in order: putting the valid
   * runs and the bytes behind the escapes back together gives the input.
   */
  lemma {:induction false} PiecesReassemble(s: seq<byte>)
    ensures Flatten(Origins(Pieces(s))) == s
    decreases |s|
  {
    if Utf8.Valid(s) {
      OriginsText(s);
      FlattenSingle(s);
    } else {
      PiecesOfInvalid(s);
      var v, n := InvalidRun(s).start, InvalidRun(s).len;
      var u, tail := s[v..v + n], s[v + n..];
      var tv, es := [Text(s[..v])], Escapes(u);
      FlatOriginsAppend(tv + es, Pieces(tail));
      FlatOriginsAppend(tv, es);
      OriginsText(s[..v]);
      FlattenSingle(s[..v]);
      OriginsOfEscapes(u);
      PiecesReassemble(tail);
      SplitJoin3(s, v, n);
    }
  }

  /** Every verbatim piece is valid UTF-8. */
  lemma {:induction false} TextPiecesValid(s: seq<byte>)
    ensures forall i :: 0 <= i < |Pieces(s)| && Pieces(s)[i].Text? ==> Utf8.Valid(Pieces(s)[i].text)
    decreases |s|
  {
    if !Utf8.Valid(s) {
      PiecesOfInvalid(s);
      var v, n := InvalidRun(s).start, InvalidRun(s).len;
      TextPiecesValid(s[v + n..]);
    }
  }

  /** The `n` positions from `v` on. */
  function Range(v: nat, n: nat): seq<nat>
  {
    seq(n, k requires 0 <= k < n => v + k)
  }

  /** The positions `ps`, each moved `d` bytes on. */
  function ShiftAll(ps: seq<nat>, d: nat): seq<nat>
  {
    seq(|ps|, i requires 0 <= i < |ps| => ps[i] + d)
  }

  /** The positions in `s` of the bytes its pieces escape, in order, cut as `Pieces` cuts `s`. */
  function EscapedPositions(s: seq<byte>): seq<nat>
    decreases |s|
  {
    if Utf8.Valid(s) then []
    else
      var v, n := InvalidRun(s).start, InvalidRun(s).len;
      Range(v, n) + ShiftAll(EscapedPositions(s[v + n..]), v + n)
  }

  /** The escaped positions of an invalid input: its first invalid run, then those of the tail, moved on. */
  lemma EscapedPositionsCut(s: seq<byte>, v: nat, n: nat, tail: seq<byte>)
    requires !Utf8.Valid(s) && v == InvalidRun(s).start && n == InvalidRun(s).len && tail == s[v + n..]
    ensures EscapedPositions(s) == Range(v, n) + ShiftAll(EscapedPositions(tail), v + n)
  {
  }

  /** No character starts inside the first invalid run: the escapes destroy no valid text. */
  lemma InvalidRunHasNoChar(s: seq<byte>)
    requires !Utf8.Valid(s)
    ensures forall j :: InvalidRun(s).start <= j < InvalidRun(s).start + InvalidRun(s).len ==>
                          !Utf8.ScanAt(s, j).Char?
  {
    Utf8.ErrorLenIsMaximal(s);
  }

  /** Every position of `ps` lies in `s`, and no character of `s` starts there. */
  ghost predicate NoCharAt(s: seq<byte>, ps: seq<nat>)
  {
    forall i :: 0 <= i < |ps| ==> ps[i] < |s| && !Utf8.ScanAt(s, ps[i]).Char?
  }

  lemma NoCharAtAppend(s: seq<byte>, a: seq<nat>, b: seq<nat>)
    requires NoCharAt(s, a) && NoCharAt(s, b)
    ensures NoCharAt(s, a + b)
  {
    forall i | 0 <= i < |a + b|
      ensures (a + b)[i] < |s| && !Utf8.ScanAt(s, (a + b)[i]).Char?
    {
      if i >= |a| {
        assert (a + b)[i] == b[i - |a|];
      }
    }
  }

  /** Positions in a tail, moved past the prefix before it, keep their meaning. */
  lemma NoCharAtShift(head: seq<byte>, tail: seq<byte>, qs: seq<nat>)
    requires NoCharAt(tail, qs)
    ensures NoCharAt(head + tail, ShiftAll(qs, |head|))
  {
    forall i | 0 <= i < |qs|
      ensures ShiftAll(qs, |head|)[i] < |head + tail| && !Utf8.ScanAt(head + tail, ShiftAll(qs, |head|)[i]).Char?
    {
      Utf8.ScanShift(head, tail, qs[i]);
    }
  }

  lemma FirstRunNoChar(s: seq<byte>, v: nat, n: nat)
    requires !Utf8.Valid(s) && v == InvalidRun(s).start && n == InvalidRun(s).len
    ensures NoCharAt(s, Range(v, n))
  {
    InvalidRunHasNoChar(s);
  }

  /** The run cut off first starts no character, and neither does any position of the tail that starts none there. */
  lemma NoCharAtCut(s: seq<byte>, v: nat, n: nat, qs: seq<nat>)
    requires !Utf8.Valid(s) && v == InvalidRun(s).start && n == InvalidRun(s).len
    requires NoCharAt(s[v + n..], qs)
    ensures NoCharAt(s, Range(v, n) + ShiftAll(qs, v + n))
  {
    NoCharAtShift(s[..v + n], s[v + n..], qs);
    SplitJoin(s, v + n);
    FirstRunNoChar(s, v, n);
    NoCharAtAppend(s, Range(v, n), ShiftAll(qs, v + n));
  }

  /**
   * Every byte `write_utf8_lossy` escapes is one at which no character of
   * the input starts: all valid surrounding text is kept as it is.
   */
  lemma {:induction false} EscapedBytesStartNoChar(s: seq<byte>)
    ensures NoCharAt(s, EscapedPositions(s))
    decreases |s|
  {
    if !Utf8.Valid(s) {
      var v, n := InvalidRun(s).start, InvalidRun(s).len;
      var tail := s[v + n..];
      EscapedPositionsCut(s, v, n, tail);
      EscapedBytesStartNoChar(tail);
      NoCharAtCut(s, v, n, EscapedPositions(tail));
    }
  }

  /** The bytes behind the escapes among `ps`, in order. */
  function EscBytes(ps: seq<Piece>): seq<byte>
    decreases |ps|
  {
    if ps == [] then [] else (if ps[0].Esc? then [ps[0].b] else []) + EscBytes(ps[1..])
  }

  lemma {:induction false} EscBytesAppend(a: seq<Piece>, b: seq<Piece>)
    ensures EscBytes(a + b) == EscBytes(a) + EscBytes(b)
    decreases |a|
  {
    if a == [] {
      assert a + b == b;
    } else {
      assert (a + b)[1..] == a[1..] + b;
      EscBytesAppend(a[1..], b);
    }
  }

  lemma {:induction false} EscBytesOfEscapes(u: seq<byte>)
    ensures EscBytes(Escapes(u)) == u
    decreases |u|
  {
    if u != [] {
      assert Escapes(u)[1..] == Escapes(u[1..]);
      EscBytesOfEscapes(u[1..]);
    } else {
      assert Escapes(u) == [];
    }
  }

  /** One round's pieces contribute the bytes of their invalid run. */
  lemma EscBytesCut(valid: seq<byte>, u: seq<byte>, rest: seq<Piece>)
    ensures EscBytes([Text(valid)] + Escapes(u) + rest) == u + EscBytes(rest)
  {
    EscBytesAppend([Text(valid)] + Escapes(u), rest);
    EscBytesAppend([Text(valid)], Escapes(u));
    assert EscBytes([Text(valid)]) == EscBytes([]);
    EscBytesOfEscapes(u);
  }

  /** `bs` are the bytes of `s` at the positions `ps`, one for one. */
  ghost predicate BytesAt(s: seq<byte>, ps: seq<nat>, bs: seq<byte>)
  {
    |bs| == |ps| && forall i :: 0 <= i < |ps| ==> ps[i] < |s| && bs[i] == s[ps[i]]
  }

  lemma BytesAtAppend(s: seq<byte>, a: seq<nat>, b: seq<nat>, x: seq<byte>, y: seq<byte>)
    requires BytesAt(s, a, x) && BytesAt(s, b, y)
    ensures BytesAt(s, a + b, x + y)
  {
    forall i | 0 <= i < |a + b|
      ensures (a + b)[i] < |s| && (x + y)[i] == s[(a + b)[i]]
    {
      if i >= |a| {
        assert (a + b)[i] == b[i - |a|] && (x + y)[i] == y[i - |a|];
      }
    }
  }

  lemma BytesAtShift(head: seq<byte>, tail: seq<byte>, qs: seq<nat>, cs: seq<byte>)
    requires BytesAt(tail, qs, cs)
    ensures BytesAt(head + tail, ShiftAll(qs, |head|), cs)
  {
  }

  lemma BytesAtRun(s: seq<byte>, v: nat, n: nat)
    requires v + n <= |s|
    ensures BytesAt(s, Range(v, n), s[v..v + n])
  {
  }

  /** The escaped pieces of `s` are, one for one and in order, the bytes of `s` at its escaped positions. */
  lemma {:induction false} EscapedPositionsArePieces(s: seq<byte>)
    ensures BytesAt(s, EscapedPositions(s), EscBytes(Pieces(s)))
    decreases |s|
  {
    if Utf8.Valid(s) {
      assert Pieces(s) == [Text(s)];
      assert EscBytes([Text(s)]) == EscBytes([]);
    } else {
      var v, n := InvalidRun(s).start, InvalidRun(s).len;
      var valid, u, tail := s[..v], s[v..v + n], s[v + n..];
      PiecesCut(s, v, n, valid, u, tail);
      EscapedPositionsCut(s, v, n, tail);
      EscBytesCut(valid, u, Pieces(tail));
      EscapedPositionsArePieces(tail);
      SplitJoin(s, v + n);
      BytesAtShift(s[..v + n], tail, EscapedPositions(tail), EscBytes(Pieces(tail)));
      BytesAtRun(s, v, n);
      BytesAtAppend(s, Range(v, n), ShiftAll(EscapedPositions(tail), v + n),
                    u, EscBytes(Pieces(tail)));
    }
  }

  /**
   * The input is written verbatim in one write with no escape exactly when it
   * is valid UTF-8; otherwise at least one byte is escaped.
   */
  lemma LossyOneWriteIffValid(s: seq<byte>)
    ensures Utf8.Valid(s) <==> LossyOps(s) == [s]
    ensures Utf8.Valid(s) <==> (forall i :: 0 <= i < |Pieces(s)| ==> Pieces(s)[i].Text?)
  {
    if !Utf8.Valid(s) {
      PiecesOfInvalid(s);
      var v, n := InvalidRun(s).start, InvalidRun(s).len;
      assert Pieces(s)[1] == Esc(s[v]);
      assert |LossyOps(s)| >= 2;
    }
  }

  lemma RendersAppend(a: seq<Piece>, b: seq<Piece>)
    ensures Renders(a + b) == Renders(a) + Renders(b)
  {
  }

  lemma RendersText(t: seq<byte>)
    ensures Renders([Text(t)]) == [t]
  {
  }

  lemma RendersEscapes(u: seq<byte>)
    ensures Renders(Escapes(u)) == Tokens(u)
  {
  }

  /** What `write_utf8_lossy` writes in all, on a destination that accepts every write. */
  function LossyOutput(s: seq<byte>): seq<byte>
  {
    Flatten(LossyOps(s))
  }

  /** Unrolls the writes of `write_utf8_lossy` over one invalid run. */
  lemma LossyOpsOfInvalid(s: seq<byte>)
    requires !Utf8.Valid(s)
    ensures var v, n := InvalidRun(s).start, InvalidRun(s).len;
            && 0 < n && v + n <= |s| && Utf8.Valid(s[..v])
            && LossyOps(s) == [s[..v]] + Tokens(s[v..v + n]) + LossyOps(s[v + n..])
  {
    Utf8.ValidUpToValid(s);
  }

  /** The writes are the renderings of the pieces the input is cut into, one write per piece. */
  lemma {:induction false} LossyOpsRenderPieces(s: seq<byte>)
    ensures LossyOps(s) == Renders(Pieces(s))
    decreases |s|
  {
    if !Utf8.Valid(s) {
      var v, n := InvalidRun(s).start, InvalidRun(s).len;
      var valid, u, tail := s[..v], s[v..v + n], s[v + n..];
      LossyOpsCut(s, v, n, valid, u, tail);
      PiecesCut(s, v, n, valid, u, tail);
      LossyOpsRenderPieces(tail);
      RendersAppend([Text(valid)] + Escapes(u), Pieces(tail));
      RendersAppend([Text(valid)], Escapes(u));
      RendersEscapes(u);
      RendersText(valid);
    }
  }

  /** The output of `write_utf8_lossy` is valid UTF-8, for every input. */
  lemma {:induction false} LossyOutputValid(s: seq<byte>)
    ensures Utf8.Valid(LossyOutput(s))
    decreases |s|
  {
    if Utf8.Valid(s) {
      LossyOneWriteIffValid(s);
      FlattenSingle(s);
    } else {
      var v, n := InvalidRun(s).start, InvalidRun(s).len;
      var valid, u, tail := s[..v], s[v..v + n], s[v + n..];
      Utf8.ValidUpToValid(s);
      LossyOpsCut(s, v, n, valid, u, tail);
      LossyOutputValid(tail);
      FlattenAppend([valid] + Tokens(u), LossyOps(tail));
      FlattenAppend([valid], Tokens(u));
      FlattenSingle(valid);
      EscapedShape(u);
      Utf8.AsciiValid(Escaped(u));
      Utf8.ValidConcat(valid, Escaped(u));
      Utf8.ValidConcat(valid + Escaped(u), LossyOutput(tail));
    }
  }

  /** Escaping only lengthens: a non-empty message never renders as nothing. */
  lemma {:induction false} LossyOutputLength(s: seq<byte>)
    ensures |LossyOutput(s)| >= |s|
    decreases |s|
  {
    if Utf8.Valid(s) {
      LossyOneWriteIffValid(s);
      FlattenSingle(s);
    } else {
      var v, n := InvalidRun(s).start, InvalidRun(s).len;
      var valid, u, tail := s[..v], s[v..v + n], s[v + n..];
      LossyOpsCut(s, v, n, valid, u, tail);
      LossyOutputLength(tail);
      FlattenAppend([valid] + Tokens(u), LossyOps(tail));
      FlattenAppend([valid], Tokens(u));
      FlattenSingle(valid);
      EscapedShape(u);
    }
  }

  /** `a`, the invalid byte 0xFF, `b`: the byte is escaped and both letters kept. */
  lemma LossyInvalidByteExample()
    ensures LossyOps([0x61, 0xFF, 0x62]) == [[0x61], Token(0xFF), [0x62]]
    ensures LossyOutput([0x61, 0xFF, 0x62]) == [0x61, Backslash, LowerX, 0x66, 0x66, 0x62]
  {
    var s: seq<byte> := [0x61, 0xFF, 0x62];
    assert Utf8.ScanAt(s, 0) == Utf8.Char(1);
    assert Utf8.ScanAt(s, 1) == Utf8.Invalid(1);
    assert Utf8.FromUtf8(s) == Utf8.Err(Utf8.Utf8Error(1, Some(1)));
    LossyOpsCut(s, 1, 1, [0x61], [0xFF], [0x62]);
    assert Utf8.ScanAt([0x62], 0) == Utf8.Char(1);
    assert LossyOps([0x62]) == [[0x62]];
    assert Tokens([0xFF]) == [Token(0xFF)];
    FlattenAppend([[0x61], Token(0xFF)], [[0x62]]);
    FlattenAppend([[0x61]], [Token(0xFF)]);
    FlattenSingle([0x61]);
    FlattenSingle(Token(0xFF));
    FlattenSingle([0x62]);
  }

  /**
   * `a` and then a three-byte character cut short: `error_len` is None, the
   * rest is escaped byte by byte, and the loop ends with a write of the empty tail.
   */
  lemma LossyTruncatedExample()
    ensures LossyOps([0x61, 0xE2, 0x82]) == [[0x61], Token(0xE2), Token(0x82), []]
    ensures LossyOutput([0x61, 0xE2, 0x82]) ==
              [0x61, Backslash, LowerX, 0x65, 0x32, Backslash, LowerX, 0x38, 0x32]
  {
    var s: seq<byte> := [0x61, 0xE2, 0x82];
    assert Utf8.ScanAt(s, 0) == Utf8.Char(1);
    assert Utf8.ScanAt(s, 1) == Utf8.Truncated;
    assert Utf8.FromUtf8(s) == Utf8.Err(Utf8.Utf8Error(1, None));
    LossyOpsCut(s, 1, 2, [0x61], [0xE2, 0x82], []);
    assert LossyOps([]) == [[]];
    assert Tokens([0xE2, 0x82]) == [Token(0xE2), Token(0x82)];
    FlattenAppend([[0x61], Token(0xE2), Token(0x82)], [[]]);
    FlattenAppend([[0x61], Token(0xE2)], [Token(0x82)]);
    FlattenAppend([[0x61]], [Token(0xE2)]);
    FlattenSingle([0x61]);
    FlattenSingle(Token(0xE2));
    FlattenSingle(Token(0x82));
    FlattenSingle([]);
  }

  // The steps of the loop of `write_utf8_lossy`, each as the effect so far.
  // `done` are the writes already issued, `restOps` the writes still owed for
  // the rest of the input and `all` the writes owed for the whole input.

  /** The writes owed for an invalid input, once its first invalid run is known to be `Run(v, n)`. */
  lemma LossyOpsCut(s: seq<byte>, v: nat, n: nat, valid: seq<byte>, invalid: seq<byte>, tail: seq<byte>)
    requires !Utf8.Valid(s) && v == InvalidRun(s).start && n == InvalidRun(s).len
    requires valid == s[..v] && invalid == s[v..v + n] && tail == s[v + n..]
    ensures LossyOps(s) == [valid] + Tokens(invalid) + LossyOps(tail)
  {
    LossyOpsOfInvalid(s);
  }

  /**
   * One round of the loop on an invalid rest, cut as the loop cuts it from the
   * error of `from_utf8`: the valid prefix, the invalid run and the tail.
   */
  lemma LossySplit(rest: seq<byte>, e: Utf8.Utf8Error, valid: seq<byte>, afterValid: seq<byte>,
                   invalidLen: nat, invalid: seq<byte>, tail: seq<byte>)
    requires Utf8.FromUtf8(rest) == Utf8.Err(e)
    requires valid == rest[..e.validUpTo] && afterValid == rest[e.validUpTo..]
    requires invalidLen == if e.errorLen.Some? then e.errorLen.value else |afterValid|
    requires invalidLen <= |afterValid|
    requires invalid == afterValid[..invalidLen] && tail == afterValid[invalidLen..]
    ensures Utf8.Valid(valid) && |tail| < |rest|
    ensures LossyOps(rest) == [valid] + Tokens(invalid) + LossyOps(tail)
  {
    Utf8.ValidUpToValid(rest);
    DropTake(rest, e.validUpTo, invalidLen);
    LossyOpsCut(rest, e.validUpTo, invalidLen, valid, invalid, tail);
  }

  /** The rest is valid: its one write ends the loop. */
  lemma LossyFinish(all: seq<seq<byte>>, done: seq<seq<byte>>, rest: seq<byte>, failAt: Option<nat>,
                    t: seq<byte>, w: nat, t0: seq<byte>, w0: nat, t1: seq<byte>, w1: nat, r: FmtResult)
    requires Utf8.Valid(rest) && done + LossyOps(rest) == all
    requires Performed(done, failAt, t, w, t0, w0, Ok)
    requires Performed([rest], failAt, t0, w0, t1, w1, r)
    ensures Performed(all, failAt, t, w, t1, w1, r)
  {
    assert LossyOps(rest) == [rest];
    PerformedThen(done, [rest], failAt, t, w, t0, w0, Ok, t1, w1, r);
  }

  /** The write of the valid prefix failed: nothing after it is written. */
  lemma LossyTextFailed(all: seq<seq<byte>>, done: seq<seq<byte>>, restOps: seq<seq<byte>>,
                        valid: seq<byte>, escapes: seq<seq<byte>>, tailOps: seq<seq<byte>>, failAt: Option<nat>,
                        t: seq<byte>, w: nat, t0: seq<byte>, w0: nat, t1: seq<byte>, w1: nat)
    requires done + restOps == all && restOps == [valid] + escapes + tailOps
    requires Performed(done, failAt, t, w, t0, w0, Ok)
    requires Performed([valid], failAt, t0, w0, t1, w1, Err)
    ensures Performed(all, failAt, t, w, t1, w1, Err)
  {
    assert restOps == [valid] + (escapes + tailOps);
    PerformedStops([valid], escapes + tailOps, failAt, t0, w0, t1, w1);
    PerformedThen(done, restOps, failAt, t, w, t0, w0, Ok, t1, w1, Err);
  }

  /** The valid prefix was written; the escapes of the invalid run were then issued with result `r`. */
  lemma LossyEscaped(all: seq<seq<byte>>, done: seq<seq<byte>>, restOps: seq<seq<byte>>,
                     valid: seq<byte>, escapes: seq<seq<byte>>, tailOps: seq<seq<byte>>, failAt: Option<nat>,
                     t: seq<byte>, w: nat, t0: seq<byte>, w0: nat, t1: seq<byte>, w1: nat,
                     t2: seq<byte>, w2: nat, r: FmtResult)
    requires done + restOps == all && restOps == [valid] + escapes + tailOps
    requires Performed(done, failAt, t, w, t0, w0, Ok)
    requires Performed([valid], failAt, t0, w0, t1, w1, Ok)
    requires Performed(escapes, failAt, t1, w1, t2, w2, r)
    ensures r == Err ==> Performed(all, failAt, t, w, t2, w2, Err)
    ensures r == Ok ==> Performed(done + ([valid] + escapes), failAt, t, w, t2, w2, Ok)
    ensures r == Ok ==> done + ([valid] + escapes) + tailOps == all
  {
    var step := [valid] + escapes;
    PerformedThen([valid], escapes, failAt, t0, w0, t1, w1, Ok, t2, w2, r);
    assert restOps == step + tailOps;
    if r == Err {
      PerformedStops(step, tailOps, failAt, t0, w0, t2, w2);
      PerformedThen(done, restOps, failAt, t, w, t0, w0, Ok, t2, w2, Err);
    } else {
      PerformedThen(done, step, failAt, t, w, t0, w0, Ok, t2, w2, Ok);
    }
  }

  /**
   * `write_utf8_lossy(f, s)`: writes each valid run, then escapes the invalid
   * run after it, and goes on with the tail until the rest is valid.
   */
  method WriteUtf8Lossy(f: Formatter, s: seq<byte>) returns (r: FmtResult)
    modifies f
    ensures Performed(LossyOps(s), f.failAt, old(f.text), old(f.writes), f.text, f.writes, r)
  {
    ghost var all, t, w := LossyOps(s), f.text, f.writes;
    var rest := s;
    ghost var done: seq<seq<byte>> := [];
    while true
      invariant done + LossyOps(rest) == all
      invariant Performed(done, f.failAt, t, w, f.text, f.writes, Ok)
      decreases |rest|
    {
      ghost var t0, w0 := f.text, f.writes;
      match Utf8.FromUtf8(rest)
      case Ok =>
        r := f.WriteStr(rest);
        LossyFinish(all, done, rest, f.failAt, t, w, t0, w0, f.text, f.writes, r);
        return;
      case Err(e) =>
        var valid, afterValid := rest[..e.validUpTo], rest[e.validUpTo..];
        var invalidLen := if e.errorLen.Some? then e.errorLen.value else |afterValid|;
        var invalid, tail := afterValid[..invalidLen], afterValid[invalidLen..];
        LossySplit(rest, e, valid, afterValid, invalidLen, invalid, tail);
        r := f.WriteStr(valid);
        if r == Err {
          LossyTextFailed(all, done, LossyOps(rest), valid, Tokens(invalid), LossyOps(tail),
                          f.failAt, t, w, t0, w0, f.text, f.writes);
          return;
        }
        ghost var t1, w1 := f.text, f.writes;
        r := WriteFallback(f, invalid);
        LossyEscaped(all, done, LossyOps(rest), valid, Tokens(invalid), LossyOps(tail), f.failAt,
                     t, w, t0, w0, t1, w1, f.text, f.writes, r);
        if r == Err {
          return;
        }
        done := done + ([valid] + Tokens(invalid));
        rest := tail;
    }
  }

  // ---------------------------------------------------------------------------
  // errno_fmt: the codeset decides how the message is rendered

  /** The length of `uni_buf`, the buffer the one `iconv` call converts into. */
  const UniBufLen: nat := 128

  /** The codeset bytes `errno_fmt` compares: the name `nl_langinfo` returns and its terminating NUL. */
  function CodesetBytes(name: seq<byte>): (nl: seq<byte>)
    ensures |nl| == |name| + 1 && nl[..|name|] == name && nl[|name|] == 0
  {
    name + [0]
  }

  /** How the message is rendered: by the lossy UTF-8 path, fully escaped, or as converted text. */
  datatype Route = Lossy | Fallback | Converted(text: seq<byte>)

  /**
   * The rendering `errno_fmt` chooses for `msg` under the codeset bytes `nl`,
   * given what the conversion facility can open and what it produces.
   */
  function RouteOf(supports: (seq<byte>, seq<byte>) -> bool,
                   translate: (seq<byte>, seq<byte>, seq<byte>) -> Option<seq<byte>>,
                   msg: seq<byte>, nl: seq<byte>): (route: Route)
    ensures route == Lossy <==> nl == Iconv.Utf8Name
    ensures route.Converted? ==> |route.text| <= UniBufLen
  {
    if nl == Iconv.Utf8Name then Lossy
    else if !supports(Iconv.Utf8Name, nl) then Fallback
    else
      var t := translate(Iconv.Utf8Name, nl, msg);
      if t.Some? && |t.value| <= UniBufLen then Converted(t.value) else Fallback
  }

  /** The writes each rendering issues. */
  function RouteOps(route: Route, msg: seq<byte>): seq<seq<byte>>
  {
    match route
    case Lossy => LossyOps(msg)
    case Fallback => Tokens(msg)
    case Converted(t) => [t]
  }

  /** The calls into the conversion facility, `id` being the descriptor `iconv_open` would hand out. */
  function ErrnoCalls(supports: (seq<byte>, seq<byte>) -> bool, nl: seq<byte>, id: nat): seq<Iconv.Call>
  {
    if nl == Iconv.Utf8Name then []
    else if !supports(Iconv.Utf8Name, nl) then [Iconv.OpenCall(Iconv.Utf8Name, nl, false)]
    else [Iconv.OpenCall(Iconv.Utf8Name, nl, true), Iconv.ConvertCall(id), Iconv.CloseCall(id)]
  }

  /**
   * `errno_fmt` once `strerror` has produced `msg` and `nl_langinfo(CODESET)`
   * the codeset bytes `nl`: the UTF-8 codeset goes down the lossy path; any
   * other is converted with one `iconv` call into a 128-byte buffer, and when
   * the descriptor cannot be opened or the call fails the message is escaped.
   * The descriptor is closed again, so no descriptor stays open.
   */
  method ErrnoFmt(lib: Iconv.Library, f: Formatter, msg: seq<byte>, nl: seq<byte>) returns (r: FmtResult)
    requires lib.Valid()
    modifies lib, f
    ensures lib.Valid() && lib.open == old(lib.open)
    ensures lib.log == old(lib.log) + ErrnoCalls(lib.supports, nl, old(lib.next))
    ensures lib.next == old(lib.next) + (if nl != Iconv.Utf8Name && lib.supports(Iconv.Utf8Name, nl) then 1 else 0)
    ensures Performed(RouteOps(RouteOf(lib.supports, lib.translate, msg, nl), msg),
                      f.failAt, old(f.text), old(f.writes), f.text, f.writes, r)
  {
    if nl == Iconv.Utf8Name {
      r := WriteUtf8Lossy(f, msg);
      return;
    }
    var c := lib.Open(Iconv.Utf8Name, nl);
    if c == Iconv.Error {
      r := WriteFallback(f, msg);
      return;
    }
    var uniBuf := new byte[UniBufLen];
    var res, msgPtr, msgLen, uniBufPtr, uniBufLen := lib.Convert(c, msg, 0, |msg|, uniBuf, 0, uniBuf.Length);
    var closeRes := lib.Close(c);
    assert closeRes == 0;
    assert msg[0..|msg|] == msg;
    if res != -1 {
      var uniLen := uniBuf.Length - uniBufLen;
      var uni := uniBuf[..uniLen];
      assert uni == uniBuf[0..uniBufPtr];
      r := f.WriteStr(uni);
      return;
    }
    r := WriteFallback(f, msg);
  }

  /** The codeset name `UTF-8`, without its NUL. */
  const Utf8Codeset: seq<byte> := [0x55, 0x54, 0x46, 0x2D, 0x38]

  /**
   * The fast path is taken for the codeset named exactly `UTF-8` and for no
   * other name: not `utf8`, not `UTF-8` followed by anything.
   */
  lemma FastPathIff(name: seq<byte>)
    ensures CodesetBytes(name) == Iconv.Utf8Name <==> name == Utf8Codeset
  {
    if CodesetBytes(name) == Iconv.Utf8Name {
      assert name == CodesetBytes(name)[..|name|];
    }
  }

  /** What `errno_fmt` writes in all, on a destination that accepts every write. */
  function ErrnoOutput(route: Route, msg: seq<byte>): seq<byte>
  {
    Flatten(RouteOps(route, msg))
  }

  /** When the message ends up fully escaped: a codeset other than UTF-8 that cannot be converted within the buffer. */
  lemma FallbackWhen(supports: (seq<byte>, seq<byte>) -> bool,
                     translate: (seq<byte>, seq<byte>, seq<byte>) -> Option<seq<byte>>,
                     msg: seq<byte>, nl: seq<byte>)
    ensures RouteOf(supports, translate, msg, nl) == Fallback <==>
              && nl != Iconv.Utf8Name
              && (|| !supports(Iconv.Utf8Name, nl)
                  || translate(Iconv.Utf8Name, nl, msg).None?
                  || |translate(Iconv.Utf8Name, nl, msg).value| > UniBufLen)
  {
  }

  /**
   * The escape fallback writes one token per message byte, `4 * |msg|` ASCII
   * bytes in all, from which the message can be read back.
   */
  lemma FallbackEscapesAll(msg: seq<byte>)
    ensures |RouteOps(Fallback, msg)| == |msg|
    ensures |ErrnoOutput(Fallback, msg)| == 4 * |msg| && IsAscii(ErrnoOutput(Fallback, msg))
    ensures Unescape(ErrnoOutput(Fallback, msg)) == Some(msg)
  {
    EscapedShape(msg);
    EscapedRoundTrip(msg);
  }

  /** A converted message is written in one write of the whole conversion, which fits the buffer. */
  lemma ConvertedFits(supports: (seq<byte>, seq<byte>) -> bool,
                      translate: (seq<byte>, seq<byte>, seq<byte>) -> Option<seq<byte>>,
                      msg: seq<byte>, nl: seq<byte>)
    requires RouteOf(supports, translate, msg, nl).Converted?
    ensures var out := ErrnoOutput(RouteOf(supports, translate, msg, nl), msg);
            && supports(Iconv.Utf8Name, nl) && translate(Iconv.Utf8Name, nl, msg) == Some(out)
            && |out| <= UniBufLen && |RouteOps(RouteOf(supports, translate, msg, nl), msg)| == 1
  {
    FlattenSingle(RouteOf(supports, translate, msg, nl).text);
  }

  /**
   * Whatever the codeset and whatever the message, `errno_fmt` writes valid
   * UTF-8, provided conversions to UTF-8 produce UTF-8.
   */
  lemma ErrnoOutputValid(supports: (seq<byte>, seq<byte>) -> bool,
                         translate: (seq<byte>, seq<byte>, seq<byte>) -> Option<seq<byte>>,
                         msg: seq<byte>, nl: seq<byte>)
    requires forall from, input :: translate(Iconv.Utf8Name, from, input).Some? ==>
                                     Utf8.Valid(translate(Iconv.Utf8Name, from, input).value)
    ensures Utf8.Valid(ErrnoOutput(RouteOf(supports, translate, msg, nl), msg))
  {
    match RouteOf(supports, translate, msg, nl)
    case Lossy =>
      LossyOutputValid(msg);
    case Fallback =>
      EscapedShape(msg);
      Utf8.AsciiValid(Escaped(msg));
    case Converted(t) =>
      FlattenSingle(t);
  }
}
