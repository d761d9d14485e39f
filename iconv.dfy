/**
 * The C library's `iconv` character-set conversion facility, as an oracle:
 * which conversions `iconv_open` can set up and what a complete conversion of
 * a given input produces are fixed functions of the library; the model keeps
 * the descriptors that are open and the log of calls made.
 */
module Iconv {
  import opened Bytes
  import Utf8

  /** The NUL-terminated name `"UTF-8\0"`. */
  const Utf8Name: seq<byte> := [0x55, 0x54, 0x46, 0x2D, 0x38, 0x00]

  /** `iconv_t`: an open conversion descriptor, or the `(iconv_t)-1` error value. */
  datatype Descriptor = Error | Handle(id: nat, tocode: seq<byte>, fromcode: seq<byte>)

  /** One call into the facility. */
  datatype Call =
    | OpenCall(tocode: seq<byte>, fromcode: seq<byte>, ok: bool)
    | ConvertCall(id: nat)
    | CloseCall(id: nat)

  class Library {
    /** Whether `iconv_open(tocode, fromcode)` succeeds. */
    const supports: (seq<byte>, seq<byte>) -> bool
    /** The complete conversion of an input, or None when the input is not valid, complete text in `fromcode`. */
    const translate: (seq<byte>, seq<byte>, seq<byte>) -> Option<seq<byte>>
    /** The identity the next opened descriptor gets. */
    var next: nat
    /** The descriptors currently open. */
    var open: set<nat>
    var log: seq<Call>

    /** Descriptor identities are never reused, and a conversion to UTF-8 produces UTF-8. */
    ghost predicate Valid()
      reads this
    {
      && (forall id :: id in open ==> id < next)
      && (forall from, input :: translate(Utf8Name, from, input).Some? ==>
                                  Utf8.Valid(translate(Utf8Name, from, input).value))
    }

    constructor (supports: (seq<byte>, seq<byte>) -> bool,
                 translate: (seq<byte>, seq<byte>, seq<byte>) -> Option<seq<byte>>)
      requires forall from, input :: translate(Utf8Name, from, input).Some? ==>
                                       Utf8.Valid(translate(Utf8Name, from, input).value)
      ensures Valid() && open == {} && log == [] && next == 0
      ensures this.supports == supports && this.translate == translate
    {
      this.supports, this.translate := supports, translate;
      next, open, log := 0, {}, [];
    }

    /** `iconv_open(tocode, fromcode)`. */
    method Open(tocode: seq<byte>, fromcode: seq<byte>) returns (cd: Descriptor)
      requires Valid()
      modifies this
      ensures Valid()
      ensures log == old(log) + [OpenCall(tocode, fromcode, supports(tocode, fromcode))]
      ensures supports(tocode, fromcode) ==>
                cd == Handle(old(next), tocode, fromcode) && old(next) !in old(open)
                && open == old(open) + {old(next)} && next == old(next) + 1
      ensures !supports(tocode, fromcode) ==> cd == Error && open == old(open) && next == old(next)
    {
      log := log + [OpenCall(tocode, fromcode, supports(tocode, fromcode))];
      if supports(tocode, fromcode) {
        cd := Handle(next, tocode, fromcode);
        open := open + {next};
        next := next + 1;
      } else {
        cd := Error;
      }
    }

    /**
     * `iconv(cd, &inbuf, &inbytesleft, &outbuf, &outbytesleft)` with the four
     * pointers and counts passed as offsets. When the whole remaining input
     * converts and fits, the output is stored at `outPtr`, all counters advance
     * and the result is 0; otherwise (an invalid or incomplete input sequence, or
     * too little room) the result is -1.
     */
    method Convert(cd: Descriptor, inbuf: seq<byte>, inPtr: nat, inLeft: nat,
                   outbuf: array<byte>, outPtr: nat, outLeft: nat)
      returns (res: int, inPtr': nat, inLeft': nat, outPtr': nat, outLeft': nat)
      requires Valid() && cd.Handle? && cd.id in open
      requires inPtr + inLeft <= |inbuf| && outPtr + outLeft <= outbuf.Length
      modifies this, outbuf
      ensures Valid() && open == old(open) && next == old(next)
      ensures log == old(log) + [ConvertCall(cd.id)]
      ensures inPtr' + inLeft' == inPtr + inLeft && outPtr' + outLeft' == outPtr + outLeft
      ensures var t := translate(cd.tocode, cd.fromcode, inbuf[inPtr..inPtr + inLeft]);
              if t.Some? && |t.value| <= outLeft then
                && res == 0 && inLeft' == 0 && outLeft' == outLeft - |t.value|
                && outbuf[outPtr..outPtr'] == t.value
                && outbuf[..outPtr] == old(outbuf[..outPtr]) && outbuf[outPtr'..] == old(outbuf[outPtr'..])
              else
                res == -1 && inLeft' == inLeft && outLeft' == outLeft && outbuf[..] == old(outbuf[..])
    {
      log := log + [ConvertCall(cd.id)];
      var t := translate(cd.tocode, cd.fromcode, inbuf[inPtr..inPtr + inLeft]);
      if t.Some? && |t.value| <= outLeft {
        var out := t.value;
        var i := 0;
        while i < |out|
          modifies outbuf
          invariant 0 <= i <= |out|
          invariant outbuf[outPtr..outPtr + i] == out[..i]
          invariant outbuf[..outPtr] == old(outbuf[..outPtr])
          invariant outbuf[outPtr + i..] == old(outbuf[outPtr + i..])
        {
          outbuf[outPtr + i] := out[i];
          assert outbuf[outPtr + i + 1..] == old(outbuf[outPtr + i..])[1..];
          i := i + 1;
        }
        res, inPtr', inLeft', outPtr', outLeft' := 0, inPtr + inLeft, 0, outPtr + |out|, outLeft - |out|;
      } else {
        res, inPtr', inLeft', outPtr', outLeft' := -1, inPtr, inLeft, outPtr, outLeft;
      }
    }

    /** `iconv_close(cd)`, which succeeds with 0. */
    method Close(cd: Descriptor) returns (res: int)
      requires Valid() && cd.Handle? && cd.id in open
      modifies this
      ensures Valid() && res == 0
      ensures open == old(open) - {cd.id} && next == old(next)
      ensures log == old(log) + [CloseCall(cd.id)]
    {
      log := log + [CloseCall(cd.id)];
      open := open - {cd.id};
      res := 0;
    }
  }
}
