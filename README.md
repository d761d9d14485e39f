# POSIX error-message rendering of errno-no-std, in Dafny

`errno-no-std` renders an operating-system error code as text without the
standard library. On POSIX systems the message comes from `strerror` as raw
bytes in the encoding the current locale uses, and `nl_langinfo(CODESET)`
names that encoding. `errno_fmt` in `src/unix.rs` turns those bytes into text
that is always valid UTF-8:

- when the codeset is `UTF-8`, `write_utf8_lossy` writes the valid runs of the
  message as they are and escapes each byte of every invalid run;
- otherwise it asks `iconv` to convert the whole message to UTF-8 in one call
  into a 128-byte buffer and writes the result;
- when no converter can be opened or the conversion fails, `write_fallback`
  escapes every byte of the message as `\x` followed by two lowercase hex
  digits.

The model has five modules:

- `Bytes` (`bytes.dfy`): bytes, `Option`, and the concatenation of a list of writes.
- `Utf8` (`utf8.dfy`): `str::from_utf8` with its `valid_up_to` / `error_len`
  error, following the well-formed sequences of section 4 of RFC 3629. It also
  contains the RFC 3629 encoder, used as an independent reference: valid UTF-8
  is exactly the encoding of a sequence of scalar values.
- `Fmt` (`fmt.dfy`): the `core::fmt::Formatter` sink as a class. It holds the
  text written so far and the number of writes. A rejection oracle, fixed when
  the formatter is made, says which write the destination rejects with
  `fmt::Error`. The predicate `Performed` states the effect of a whole list of
  writes: each write before the rejected one is appended, and nothing is
  issued after it.
- `Iconv` (`iconv.dfy`): the C library's conversion facility as a class. It
  has two oracles: which conversions can be opened, and what a complete
  conversion produces. It keeps the set of open descriptors and a log of the
  calls made. `iconv` writes into a caller-supplied `array`.
- `Unix` (`unix.dfy`): `write_fallback`, `write_utf8_lossy` and `errno_fmt` as
  methods on the formatter. Each is proved against a specification function:
  - `Tokens` for `write_fallback`;
  - `LossyOps` for `write_utf8_lossy`;
  - `RouteOf` and `RouteOps` for `errno_fmt`.

  Lemmas then state what those functions promise: the escape format and its
  inverse, that every byte is consumed once and in order, that the output is
  valid UTF-8, and when each path is taken.

## Model

| member | source | states |
|---|---|---|
| Fmt.Formatter.WriteStr | src/unix.rs:24 | one `write!` of a `&str`: the destination either appends the text whole and returns Ok, or, when this is the write it rejects, appends nothing and returns Err; the write counter advances either way |
| Fmt.PerformedThen | src/unix.rs:30-33 | the `?` operator: issuing one list of writes and, only if it succeeded, another is the same as issuing their concatenation; a failure is returned as it is and nothing after it is written |
| Fmt.PerformedStops | src/unix.rs:33 | once a write has failed, the writes that would have followed are never issued and the text stays as it was |
| Unix.HexDigit | src/unix.rs:15 | `{:x}` on a nibble gives a lowercase hex digit, and reading that digit back gives the nibble |
| Unix.TokenShape | src/unix.rs:15 | `\x{:02x}` of a byte is four ASCII bytes: backslash, `x`, and two lowercase hex digits whose value is the byte |
| Unix.EscapedShape | src/unix.rs:13-18 | `write_fallback` writes exactly `4 * \|s\|` ASCII bytes, and bytes `4i` to `4i+4` are the token of `s[i]`: one token per byte, in input order |
| Unix.EscapedRoundTrip | src/unix.rs:13-18 | reading the escape tokens back gives the original bytes |
| Unix.UnescapeInverts | src/unix.rs:13-18 | a string unescapes to `s` if and only if it is the escape of `s` |
| Unix.WriteFallback | src/unix.rs:13-18 | the loop issues one token write per byte, in order; it stops at the first rejected write and returns its error, and otherwise returns Ok |
| Utf8.FromUtf8 | src/unix.rs:22 | on failure, `valid_up_to` is inside the input; `error_len` is 1 to 3 bytes within the input; `error_len` is absent only when at most 3 bytes remain |
| Utf8.ValidUpToValid | src/unix.rs:28-29 | the prefix before `valid_up_to` is valid UTF-8, which is what `from_utf8_unchecked` relies on |
| Utf8.ValidUpToIsMaximal | src/unix.rs:28 | no prefix longer than `valid_up_to` is valid UTF-8 |
| Utf8.ValidConcat | src/unix.rs:20-37 | writing valid runs one after another keeps the text valid UTF-8 |
| Utf8.ErrorLenIsMaximal | src/unix.rs:22-31 | what `error_len` means, by the maximal-subpart rule of section 3.9 of the Unicode Standard: no character starts at `valid_up_to`; `error_len` is absent if and only if the rest of the input is the unfinished beginning of some character; otherwise the `error_len` bytes are a single byte or a run that some character could still begin with, and no character begins with that run extended by the next byte (or with the run itself when it ends the input), so the run is the longest such; all bytes of the run after its first are continuation bytes |
| Utf8.InvalidRunIsMaximal | src/unix.rs:31-32 | the same maximal-subpart rule for the run `from_utf8` reports at any position |
| Utf8.TruncatedIsUnfinished | src/unix.rs:31 | when `error_len` is absent, the remainder is a lead byte followed only by continuation bytes that some character could still complete |
| Utf8.UnfinishedCompletable | src/unix.rs:31 | a lead byte followed by a well-formed second byte and continuation bytes, shorter than the lead announces, is the start of the RFC 3629 encoding of some scalar value |
| Utf8.AsciiValid | src/unix.rs:15 | ASCII bytes, such as escape tokens, are valid UTF-8 and may be written as `&str` |
| Utf8.EncodeScans | src/unix.rs:22 | the RFC 3629 encoding of every scalar value is one character that `from_utf8` accepts |
| Utf8.DecodeEncodes | src/unix.rs:22 | every character `from_utf8` accepts is the RFC 3629 encoding of a scalar value |
| Utf8.EncodeAllValid | src/unix.rs:29 | encoding any sequence of scalar values gives bytes that are valid as `&str` |
| Utf8.ValidIsEncoding | src/unix.rs:29 | bytes that are valid as `&str` are exactly the encoding of their scalar values |
| Unix.InvalidRun | src/unix.rs:31-32 | the escaped run starts at `valid_up_to`, is `error_len` bytes long (or reaches the end when `error_len` is absent), is never empty and lies within the input |
| Unix.LossyOneWriteIffValid | src/unix.rs:22-26 | the input is written verbatim in a single write with no escape if and only if it is valid UTF-8; otherwise at least one byte is escaped |
| Unix.PiecesReassemble | src/unix.rs:20-37 | joining the verbatim runs and the bytes behind the escapes, in order, gives back the input: every byte is consumed exactly once |
| Unix.TextPiecesValid | src/unix.rs:29 | every run written verbatim is valid UTF-8 |
| Unix.LossyOpsRenderPieces | src/unix.rs:20-37 | each write is the rendering of one piece: a valid run as it is, or one escaped byte |
| Unix.InvalidRunHasNoChar | src/unix.rs:31-33 | no character that `from_utf8` would accept starts at any byte of the run `write_fallback` escapes |
| Unix.EscapedPositionsArePieces | src/unix.rs:20-37 | the bytes behind the escapes, in order, are the input's bytes at the positions of every escaped run (`valid_up_to` to `valid_up_to + invalid_len` of each round, shifted to the whole input) |
| Unix.EscapedBytesStartNoChar | src/unix.rs:20-37 | no escaped byte is the start of a character in the input: `write_utf8_lossy` escapes only bytes that cannot be decoded where they stand |
| Unix.LossyOutputValid | src/unix.rs:20-37 | whatever the input, everything `write_utf8_lossy` writes is valid UTF-8 |
| Unix.LossyOutputLength | src/unix.rs:20-37 | the output is never shorter than the input, so a non-empty message never renders as nothing |
| Unix.LossyInvalidByteExample | src/unix.rs:27-34 | `a`, 0xFF, `b` is written as `a`, `\xff`, `b` in three writes |
| Unix.LossyTruncatedExample | src/unix.rs:31-34 | `a` followed by a three-byte character cut short: the whole remainder is escaped, and the loop ends with one more write, of the empty tail |
| Unix.LossySplit | src/unix.rs:28-34 | one round of the loop: the valid prefix is valid UTF-8, the tail is strictly shorter than the rest (so the loop terminates), and the writes owed for the rest are prefix, tokens, then the writes for the tail |
| Unix.LossyFinish | src/unix.rs:23-25 | a valid rest is the last write of the loop, and its result is the result of the whole call |
| Unix.LossyTextFailed | src/unix.rs:30 | a rejected write of the valid prefix ends the call with that error and nothing more written |
| Unix.LossyEscaped | src/unix.rs:33-34 | after the escapes of the invalid run, a failure ends the call with that error; a success leaves the writes for the tail still owed |
| Unix.WriteUtf8Lossy | src/unix.rs:20-38 | the loop issues exactly the writes `LossyOps(s)`, in order, stopping at the first rejected one and returning its error |
| Unix.RouteOf | src/unix.rs:49-76 | the lossy path is chosen if and only if the codeset bytes are `UTF-8\0`; converted text is at most 128 bytes |
| Unix.FastPathIff | src/unix.rs:45-51 | the codeset name with its NUL equals `UTF-8\0` if and only if the name is exactly `UTF-8` |
| Unix.FallbackWhen | src/unix.rs:52-76 | the message is fully escaped if and only if the codeset is not UTF-8 and either the descriptor cannot be opened, or the conversion fails, or it does not fit the 128-byte buffer |
| Unix.FallbackEscapesAll | src/unix.rs:53-54 | the fallback issues one token per message byte, `4 * \|msg\|` ASCII bytes in all, from which the message reads back |
| Unix.ConvertedFits | src/unix.rs:70-74 | converted output is written in one write; it is the whole conversion of the message and at most 128 bytes |
| Unix.ErrnoOutputValid | src/unix.rs:40-77 | whatever the codeset and the message, `errno_fmt` writes valid UTF-8, provided conversions to UTF-8 produce UTF-8 |
| Iconv.Library.Open | src/unix.rs:52-55 | `iconv_open` returns a fresh descriptor and records it as open when the conversion is supported, and the error value otherwise |
| Iconv.Library.Convert | src/unix.rs:61-67 | one `iconv` call: when the whole input converts and fits, the output is stored at the output offset, the counters advance and the result is 0; otherwise the result is -1 and the buffer and the counters are left untouched; the call is logged either way |
| Iconv.Library.Close | src/unix.rs:68-69 | `iconv_close` removes the descriptor from the open set and returns 0 |
| Unix.ErrnoFmt | src/unix.rs:40-77 | issues exactly the writes of the chosen route (lossy writes, one token per byte, or the converted prefix `uni_buf[..128 - uni_buf_len]`) and stops at a rejected write; makes no call, one failed open, or open + one convert + close; leaves no descriptor open; and advances the descriptor counter exactly when it opens a descriptor |

## Left out

- `strerror` and `nl_langinfo(CODESET)` are not modelled. `ErrnoFmt` takes the message bytes and the codeset bytes (including the NUL) as inputs. Mapping the code `e` to a message is the C library's job.
- `errno_raw` and `set_errno_raw` (`src/unix.rs`), which read and set the thread's `errno`, are not part of this model. Neither are `errno`, `set_errno`, the `Errno` type and its `Display`/`Debug` glue in `src/lib.rs`.
- `src/windows.rs` (the UTF-16 path) and `src/custom.rs` are not part of this model.
- Raw pointers, `MaybeUninit` and `transmute` are not modelled. `iconv`'s four in/out pointers become offsets into the message and into the buffer.
- The uninitialised buffer becomes an array of arbitrary bytes. The code reads only the part `iconv` wrote.
- Iconv.Library.Convert: on -1 the model leaves the buffer and the counters untouched. A real `iconv` may already have stored a converted prefix before failing. `errno_fmt` never reads the buffer after -1, so this changes nothing it writes.
- Iconv.Library.Convert: a successful call returns 0, not the number of irreversible conversions. `errno_fmt` treats every result other than -1 alike.
- Iconv.Library.Valid: the model assumes that every conversion to UTF-8 produces valid UTF-8. The code relies on this when it calls `from_utf8_unchecked` on `iconv`'s output.
- Fmt.Formatter.WriteStr: each `write!` is one write that the destination accepts or rejects whole. A `write!` with a `{:02x}` argument may reach the destination as several `write_str` calls, so partial tokens are not modelled.
- Unix.ErrnoFmt: its contract does not say that `iconv_close` happens before either write. The method body closes first, but the contract has no shared timeline of library calls and sink writes.
- `errno_fmt` makes one `iconv` call and escapes the whole message when that call fails. There is no incremental conversion and no per-byte retry, and the model has none either.
- Unix.ErrnoFmt: accepts any message bytes. The message `strerror` returns is delimited by `strlen`, so it never contains a NUL; the model's inputs are a superset of the real ones, and nothing in its contracts depends on the absence of NUL.
