/**
 * The text sink `core::fmt::Formatter` as the renderer drives it: each
 * `write!` hands it one `&str`, which the destination either accepts whole or
 * rejects with `fmt::Error`. Which write the destination rejects is an oracle
 * fixed when the formatter is made.
 */
module Fmt {
  import opened Bytes
  import Utf8

  /** `core::fmt::Result`. */
  datatype FmtResult = Ok | Err

  /** True when write number `failAt` is among the `count` writes numbered from `start`. */
  predicate Hits(failAt: Option<nat>, start: nat, count: nat)
  {
    failAt.Some? && start <= failAt.value < start + count
  }

  /**
   * The effect of issuing the writes `ops` in order, the first of them being
   * write number `w0`, on a destination holding `text0`: every write before the
   * rejected one is appended, the rejected one appends nothing, nothing is
   * written after it, and its error is the result. `text1` and `w1` are the
   * destination and the write count afterwards.
   */
  ghost predicate Performed(ops: seq<seq<byte>>, failAt: Option<nat>, text0: seq<byte>, w0: nat,
                            text1: seq<byte>, w1: nat, r: FmtResult)
  {
    if Hits(failAt, w0, |ops|) then
      r == Err && w1 == failAt.value + 1 && text1 == text0 + Flatten(ops[..failAt.value - w0])
    else
      r == Ok && w1 == w0 + |ops| && text1 == text0 + Flatten(ops)
  }

  /**
   * Issuing `a` and then, if that succeeded, `b` performs `a + b`; if `a`
   * failed, the failure is the outcome of `a + b` and `b` is never issued.
   */
  lemma {:induction false} PerformedThen(a: seq<seq<byte>>, b: seq<seq<byte>>, failAt: Option<nat>,
                                         t0: seq<byte>, w0: nat, t1: seq<byte>, w1: nat, r1: FmtResult,
                                         t2: seq<byte>, w2: nat, r2: FmtResult)
    requires Performed(a, failAt, t0, w0, t1, w1, r1)
    requires r1 == Ok ==> Performed(b, failAt, t1, w1, t2, w2, r2)
    requires r1 == Err ==> t2 == t1 && w2 == w1 && r2 == Err
    ensures Performed(a + b, failAt, t0, w0, t2, w2, r2)
  {
    if Hits(failAt, w0, |a|) {
      assert (a + b)[..failAt.value - w0] == a[..failAt.value - w0];
    } else if Hits(failAt, w1, |b|) {
      var k := failAt.value - w0;
      assert (a + b)[..k] == a + b[..failAt.value - w1];
      FlattenAppend(a, b[..failAt.value - w1]);
    } else {
      FlattenAppend(a, b);
    }
  }

  /** Once a write has failed, appending more writes changes nothing: they are never issued. */
  lemma PerformedStops(a: seq<seq<byte>>, b: seq<seq<byte>>, failAt: Option<nat>,
                       t0: seq<byte>, w0: nat, t1: seq<byte>, w1: nat)
    requires Performed(a, failAt, t0, w0, t1, w1, Err)
    ensures Performed(a + b, failAt, t0, w0, t1, w1, Err)
  {
    PerformedThen(a, b, failAt, t0, w0, t1, w1, Err, t1, w1, Err);
  }

  /** A formatter whose destination has accepted `text` over `writes` writes so far. */
  class Formatter {
    var text: seq<byte>
    var writes: nat
    const failAt: Option<nat>

    constructor (failAt: Option<nat>)
      ensures text == [] && writes == 0 && this.failAt == failAt
    {
      text, writes := [], 0;
      this.failAt := failAt;
    }

    /** `write!(f, "{}", s)` for a `&str` `s`: only well-formed UTF-8 can be handed over. */
    method WriteStr(s: seq<byte>) returns (r: FmtResult)
      requires Utf8.Valid(s)
      modifies this
      ensures Performed([s], failAt, old(text), old(writes), text, writes, r)
    {
      if failAt == Some(writes) {
        r := Err;
      } else {
        text := text + s;
        r := Ok;
      }
      writes := writes + 1;
    }
  }
}
