/**
 Byte buffers as the codecs see them: little-endian integers, NUL-terminated strings and
 reads at an absolute offset that either yield a value and the next offset or fail.
 */
module Bytes {
  import opened Wrappers

  type byte = x: int | 0 <= x < 256
  type Bytes = seq<byte>

  /** A string whose encoding holds no NUL, the only kind a NUL-terminated field can carry. */
  type Text = s: Bytes | NulFree(s)

  predicate NulFree(s: Bytes) { forall i :: 0 <= i < |s| ==> s[i] != 0 }

  const U32_LIMIT := 0x1_0000_0000
  const I32_LIMIT := 0x8000_0000
  const I64_LIMIT := 0x8000_0000_0000_0000

  predicate IsU32(n: int) { 0 <= n < U32_LIMIT }

  predicate IsI32(n: int) { -I32_LIMIT <= n < I32_LIMIT }

  predicate IsI64(n: int) { -I64_LIMIT <= n < I64_LIMIT }

  /** The reasons for which a codec function throws. */
  datatype CodecError =
    | OutOfRange             // a read beyond the buffer, or a number that does not fit its field
    | NoTerminator           // no NUL at or after the offset
    | TooShort               // the payload lacks its fixed header
    | UnknownCode(code: int) // no command or update type has this code
    | NoWireForm             // the message has no encoding in a standard frame

  datatype Result<+T> = Success(value: T) | Failure(error: CodecError)

  /** The outcome of a read at an offset: a value and the offset after it, or an error. */
  datatype Parsed<+T> = Ok(value: T, next: nat) | Err(error: CodecError) {
    predicate IsFailure() { Err? }
    function PropagateFailure<U>(): Parsed<U> requires Err? { Err(error) }
    function Extract(): (T, nat) requires Ok? { (value, next) }
  }

  // ---------------------------------------------------------------- little-endian integers

  function Pow256(k: nat): (p: nat)
    ensures p > 0
  {
    if k == 0 then 1 else 256 * Pow256(k - 1)
  }

  /** The low `k` bytes of `n`, least significant first. */
  function ToLE(n: nat, k: nat): (bs: Bytes)
    ensures |bs| == k
    decreases k
  {
    if k == 0 then [] else [n % 256] + ToLE(n / 256, k - 1)
  }

  function FromLE(bs: Bytes): (n: nat) {
    if bs == [] then 0 else bs[0] + 256 * FromLE(bs[1..])
  }

  lemma {:induction false} LERoundTrip(n: nat, k: nat)
    requires n < Pow256(k)
    ensures FromLE(ToLE(n, k)) == n
    decreases k
  {
    if k != 0 {
      LERoundTrip(n / 256, k - 1);
      assert ToLE(n, k)[1..] == ToLE(n / 256, k - 1);
    }
  }

  lemma Pow256Values()
    ensures Pow256(4) == U32_LIMIT && Pow256(8) == U32_LIMIT * U32_LIMIT == 2 * I64_LIMIT
  {
    assert Pow256(2) == 0x1_0000 && Pow256(4) == U32_LIMIT;
    assert Pow256(6) == 0x1_0000 * Pow256(4) && Pow256(8) == 0x1_0000 * Pow256(6);
  }

  /** The bytes a fixed-width integer field holds; a number outside the field wraps. */
  function U32Bytes(n: int): (bs: Bytes)
    ensures |bs| == 4
  {
    ToLE(n % U32_LIMIT, 4)
  }

  function I64Bytes(n: int): (bs: Bytes)
    ensures |bs| == 8
  {
    ToLE(n % (2 * I64_LIMIT), 8)
  }

  function U8Bytes(n: int): (bs: Bytes)
    ensures |bs| == 1
  {
    [n % 256]
  }

  function ReadBytes(buf: Bytes, offset: nat, k: nat): Parsed<Bytes> {
    if offset + k <= |buf| then Ok(buf[offset..offset + k], offset + k) else Err(OutOfRange)
  }

  function ReadU8(buf: Bytes, offset: nat): Parsed<byte> {
    if offset < |buf| then Ok(buf[offset], offset + 1) else Err(OutOfRange)
  }

  function ReadU32(buf: Bytes, offset: nat): Parsed<nat> {
    var (bs, next) :- ReadBytes(buf, offset, 4);
    Ok(FromLE(bs), next)
  }

  function ReadI32(buf: Bytes, offset: nat): Parsed<int> {
    var (n, next) :- ReadU32(buf, offset);
    Ok(if n < I32_LIMIT then n else n - U32_LIMIT, next)
  }

  function ReadI64(buf: Bytes, offset: nat): Parsed<int> {
    var (bs, next) :- ReadBytes(buf, offset, 8);
    var n := FromLE(bs);
    Ok(if n < I64_LIMIT then n else n - 2 * I64_LIMIT, next)
  }

  // ---------------------------------------------------------------- what the bytes of an integer are

  /** The ranges of the three integer fields. */
  lemma FieldRanges(n: int)
    ensures IsU32(n) <==> 0 <= n <= 4294967295
    ensures IsI32(n) <==> -2147483648 <= n <= 2147483647
    ensures IsI64(n) <==> -9223372036854775808 <= n <= 9223372036854775807
  {
  }

  /** The number that four bytes stand for, least significant first. */
  function Word(a: int, b: int, c: int, d: int): int { a + 256 * b + 65536 * c + 16777216 * d }

  lemma LowAndHigh(low: byte, high: nat)
    ensures (low + 256 * high) % 256 == low && (low + 256 * high) / 256 == high
  {
  }

  lemma ToLEOf(n: nat, k: nat)
    ensures ToLE(n, k + 1) == [n % 256] + ToLE(n / 256, k)
  {
  }

  lemma ToLEStep(low: byte, high: nat, k: nat)
    ensures ToLE(low + 256 * high, k + 1) == [low] + ToLE(high, k)
  {
    hide ToLE;
    ToLEOf(low + 256 * high, k);
    LowAndHigh(low, high);
  }

  lemma FromLEStep(low: byte, high: Bytes)
    ensures FromLE([low] + high) == low + 256 * FromLE(high)
  {
    assert ([low] + high)[1..] == high;
  }

  lemma WordBytes(a: byte, b: byte, c: byte, d: byte)
    ensures ToLE(Word(a, b, c, d), 4) == [a, b, c, d] && FromLE([a, b, c, d]) == Word(a, b, c, d)
  {
    assert ToLE(0, 0) == [] && FromLE([]) == 0;
    hide ToLE, FromLE, Word;
    WordNests(a, b, c, d);
    var two := c + 256 * d;
    var three := b + 256 * two;
    ToLEStep(d, 0, 0);
    ToLEStep(c, d, 1);
    ToLEStep(b, two, 2);
    ToLEStep(a, three, 3);
    FromLEStep(d, []);
    FromLEStep(c, [d]);
    FromLEStep(b, [c, d]);
    FromLEStep(a, [b, c, d]);
    FourInARow(a, b, c, d);
  }

  lemma WordNests(a: byte, b: byte, c: byte, d: byte)
    ensures Word(a, b, c, d) == a + 256 * (b + 256 * (c + 256 * d)) && d + 256 * 0 == d
  {
  }

  lemma FourInARow(a: byte, b: byte, c: byte, d: byte)
    ensures [d] + [] == [d] && [c] + [d] == [c, d] && [b] + [c, d] == [b, c, d] && [a] + [b, c, d] == [a, b, c, d]
  {
  }

  lemma WordOf(n: int)
    ensures n % 4294967296 == Word(n % 256, n / 256 % 256, n / 65536 % 256, n / 16777216 % 256)
  {
    assert n / 65536 == n / 256 / 256 && n / 16777216 == n / 65536 / 256 && n / 4294967296 == n / 16777216 / 256;
  }

  /** The least significant byte comes first; a negative number stands as its two's complement. */
  lemma U32BytesAre(n: int)
    ensures U32Bytes(n) == [n % 256, n / 256 % 256, n / 65536 % 256, n / 16777216 % 256]
  {
    hide ToLE, FromLE, Word;
    WordOf(n);
    WordBytes(n % 256, n / 256 % 256, n / 65536 % 256, n / 16777216 % 256);
  }

  /** What is read from any four bytes: the number they stand for, unsigned and signed. */
  lemma FourBytesRead(buf: Bytes, offset: nat)
    requires offset + 4 <= |buf|
    ensures var n := Word(buf[offset], buf[offset + 1], buf[offset + 2], buf[offset + 3]);
            && ReadU32(buf, offset) == Ok(n, offset + 4)
            && ReadI32(buf, offset) == Ok(if buf[offset + 3] < 128 then n else n - 4294967296, offset + 4)
  {
    hide FromLE, ToLE;
    var bs := buf[offset..offset + 4];
    assert bs == [buf[offset], buf[offset + 1], buf[offset + 2], buf[offset + 3]];
    WordBytes(bs[0], bs[1], bs[2], bs[3]);
  }

  lemma {:induction false} FromLESplit(low: Bytes, high: Bytes)
    ensures FromLE(low + high) == FromLE(low) + Pow256(|low|) * FromLE(high)
  {
    if low == [] {
      assert low + high == high;
    } else {
      assert (low + high)[1..] == low[1..] + high;
      FromLESplit(low[1..], high);
      assert 256 * (Pow256(|low| - 1) * FromLE(high)) == Pow256(|low|) * FromLE(high);
    }
  }

  /** What is read from any eight bytes: the low four and the high four, of which the latter carry the sign. */
  lemma EightBytesRead(buf: Bytes, offset: nat)
    requires offset + 8 <= |buf|
    ensures ReadI64(buf, offset)
         == Ok(ReadU32(buf, offset).value + 4294967296 * ReadI32(buf, offset + 4).value, offset + 8)
  {
    hide FromLE;
    var low, high := buf[offset..offset + 4], buf[offset + 4..offset + 8];
    assert buf[offset..offset + 8] == low + high;
    FromLESplit(low, high);
    Pow256Values();
    FourBytesRead(buf, offset);
    FourBytesRead(buf, offset + 4);
  }

  /** A number is read exactly if all its bytes are there. */
  lemma ReadsIff(buf: Bytes, offset: nat)
    ensures ReadU8(buf, offset).Ok? <==> offset + 1 <= |buf|
    ensures ReadU32(buf, offset).Ok? <==> offset + 4 <= |buf|
    ensures ReadI32(buf, offset).Ok? <==> offset + 4 <= |buf|
    ensures ReadI64(buf, offset).Ok? <==> offset + 8 <= |buf|
  {
  }

  // ---------------------------------------------------------------- NUL-terminated strings

  function CStr(s: Bytes): (bs: Bytes)
    ensures |bs| == |s| + 1
  {
    s + [0]
  }

  /** `buf.indexOf(0, offset)`. */
  function FindNul(buf: Bytes, offset: nat): (r: Option<nat>)
    ensures r.Some? ==> offset <= r.value < |buf| && buf[r.value] == 0 && NulFree(buf[offset..r.value])
    ensures r.None? ==> forall i :: offset <= i < |buf| ==> buf[i] != 0
    decreases |buf| - offset
  {
    if offset >= |buf| then None
    else if buf[offset] == 0 then Some(offset)
    else
      var r := FindNul(buf, offset + 1);
      assert r.Some? ==> buf[offset..r.value] == [buf[offset]] + buf[offset + 1..r.value];
      r
  }

  function ReadCStr(buf: Bytes, offset: nat): Parsed<Text> {
    match FindNul(buf, offset)
    case None => Err(NoTerminator)
    case Some(end) => Ok(buf[offset..end], end + 1)
  }

  /** A string is read exactly if a NUL follows somewhere: up to the first one, which is skipped. */
  lemma CStrReadIff(buf: Bytes, offset: nat, s: Text, next: nat)
    ensures ReadCStr(buf, offset) == Ok(s, next)
       <==> offset < next <= |buf| && buf[offset..next - 1] == s && buf[next - 1] == 0
  {
    if offset < next <= |buf| && buf[offset..next - 1] == s && buf[next - 1] == 0 {
      assert forall i :: offset <= i < next - 1 ==> buf[i] == s[i - offset];
      FindNulIs(buf, offset, next - 1);
    }
  }

  // ---------------------------------------------------------------- what lies at an offset

  /** The bytes `bs` stand in `buf` at `offset`. */
  predicate At(buf: Bytes, offset: nat, bs: Bytes) {
    offset + |bs| <= |buf| && buf[offset..offset + |bs|] == bs
  }

  lemma At2(buf: Bytes, offset: nat, a: Bytes, b: Bytes)
    requires At(buf, offset, a + b)
    ensures At(buf, offset, a) && At(buf, offset + |a|, b)
  {
    var ab := buf[offset..offset + |a + b|];
    assert ab[..|a|] == a && ab[|a|..] == b;
  }

  lemma At3(buf: Bytes, offset: nat, a: Bytes, b: Bytes, c: Bytes)
    requires At(buf, offset, a + b + c)
    ensures At(buf, offset, a) && At(buf, offset + |a|, b) && At(buf, offset + |a| + |b|, c)
  {
    At2(buf, offset, a + b, c);
    At2(buf, offset, a, b);
  }

  lemma At4(buf: Bytes, offset: nat, a: Bytes, b: Bytes, c: Bytes, d: Bytes)
    requires At(buf, offset, a + b + c + d)
    ensures At(buf, offset, a) && At(buf, offset + |a|, b) && At(buf, offset + |a| + |b|, c)
    ensures At(buf, offset + |a| + |b| + |c|, d)
  {
    At2(buf, offset, a + b + c, d);
    At3(buf, offset, a, b, c);
  }

  lemma At5(buf: Bytes, offset: nat, a: Bytes, b: Bytes, c: Bytes, d: Bytes, e: Bytes)
    requires At(buf, offset, a + b + c + d + e)
    ensures At(buf, offset, a) && At(buf, offset + |a|, b) && At(buf, offset + |a| + |b|, c)
    ensures At(buf, offset + |a| + |b| + |c|, d) && At(buf, offset + |a| + |b| + |c| + |d|, e)
  {
    At2(buf, offset, a + b + c + d, e);
    At4(buf, offset, a, b, c, d);
  }

  lemma AtSelf(bs: Bytes)
    ensures At(bs, 0, bs)
  {
  }

  lemma AtPrefix(bs: Bytes, rest: Bytes)
    ensures At(bs + rest, 0, bs)
  {
  }

  lemma AtBytes(buf: Bytes, offset: nat, bs: Bytes)
    requires At(buf, offset, bs)
    ensures ReadBytes(buf, offset, |bs|) == Ok(bs, offset + |bs|)
  {
  }

  lemma AtU8(buf: Bytes, offset: nat, n: int)
    requires At(buf, offset, U8Bytes(n)) && 0 <= n < 256
    ensures ReadU8(buf, offset) == Ok(n, offset + 1)
  {
    assert buf[offset..offset + 1][0] == n;
  }

  lemma U32Value(n: int)
    ensures FromLE(U32Bytes(n)) == n % U32_LIMIT
  {
    hide ToLE, FromLE, Pow256;
    Pow256Values();
    LERoundTrip(n % U32_LIMIT, 4);
  }

  lemma AtU32(buf: Bytes, offset: nat, n: int)
    requires At(buf, offset, U32Bytes(n)) && IsU32(n)
    ensures ReadU32(buf, offset) == Ok(n, offset + 4)
  {
    hide U32Bytes, FromLE;
    U32Value(n);
  }

  lemma AtI32(buf: Bytes, offset: nat, n: int)
    requires At(buf, offset, U32Bytes(n)) && IsI32(n)
    ensures ReadI32(buf, offset) == Ok(n, offset + 4)
  {
    hide U32Bytes, FromLE;
    U32Value(n);
  }

  lemma AtI64(buf: Bytes, offset: nat, n: int)
    requires At(buf, offset, I64Bytes(n)) && IsI64(n)
    ensures ReadI64(buf, offset) == Ok(n, offset + 8)
  {
    hide ToLE, FromLE, Pow256;
    Pow256Values();
    LERoundTrip(n % (2 * I64_LIMIT), 8);
  }

  lemma {:induction false} FindNulIs(buf: Bytes, offset: nat, end: nat)
    requires offset <= end < |buf| && buf[end] == 0
    requires forall i :: offset <= i < end ==> buf[i] != 0
    ensures FindNul(buf, offset) == Some(end)
    decreases end - offset
  {
    if offset < end { FindNulIs(buf, offset + 1, end); }
  }

  lemma AtCStr(buf: Bytes, offset: nat, s: Text)
    requires At(buf, offset, CStr(s))
    ensures ReadCStr(buf, offset) == Ok(s, offset + |s| + 1)
  {
    At2(buf, offset, s, [0]);
    var end := offset + |s|;
    assert buf[end] == buf[end..end + 1][0];
    assert forall i :: offset <= i < end ==> buf[i] == buf[offset..end][i - offset];
    FindNulIs(buf, offset, end);
  }

  /** A string survives a NUL-terminated field exactly when it holds no NUL itself. */
  lemma CStrRoundTripIffNulFree(s: Bytes, rest: Bytes)
    ensures ReadCStr(CStr(s) + rest, 0) == Ok(s, |s| + 1) <==> NulFree(s)
  {
    var buf := CStr(s) + rest;
    if NulFree(s) {
      assert buf[..|s| + 1] == CStr(s);
      AtCStr(buf, 0, s);
    }
  }

  // ---------------------------------------------------------------- lists of records

  /** `Buffer.concat` over the encodings of `xs`, in order. */
  function EncodeAll<T>(encode: T -> Bytes, xs: seq<T>): Bytes {
    if xs == [] then [] else encode(xs[0]) + EncodeAll(encode, xs[1..])
  }

  /** A 32-bit count followed by the records. */
  function Counted<T>(encode: T -> Bytes, xs: seq<T>): Bytes {
    U32Bytes(|xs|) + EncodeAll(encode, xs)
  }

  /** Reads records `i` to `n` from `offset` on; a reader is told the index of its record. */
  function DecodeAll<T>(decode: (Bytes, nat, nat) -> Parsed<T>, buf: Bytes, offset: nat, i: nat, n: nat)
    : Parsed<seq<T>>
    decreases n - i
  {
    if i >= n then Ok([], offset)
    else
      var (x, o1) :- decode(buf, offset, i);
      var (xs, o2) :- DecodeAll(decode, buf, o1, i + 1, n);
      Ok([x] + xs, o2)
  }

  function DecodeCounted<T>(decode: (Bytes, nat, nat) -> Parsed<T>, buf: Bytes, offset: nat): Parsed<seq<T>> {
    var (n, o) :- ReadU32(buf, offset);
    DecodeAll(decode, buf, o, 0, n)
  }

  /** Each record mapped with its index. */
  function MapIndexed<T, U>(f: (T, nat) -> U, xs: seq<T>, start: nat): (ys: seq<U>)
    ensures |ys| == |xs|
    ensures forall i :: 0 <= i < |xs| ==> ys[i] == f(xs[i], start + i)
  {
    seq(|xs|, i requires 0 <= i < |xs| => f(xs[i], start + i))
  }

  /** `decode` reads back the record `x` wherever it stands in `buf`, consuming exactly its bytes. */
  ghost predicate ReadsBack<T, U>(
    encode: T -> Bytes, decode: (Bytes, nat, nat) -> Parsed<U>, norm: (T, nat) -> U, buf: Bytes, x: T)
  {
    forall offset: nat, i: nat {:trigger decode(buf, offset, i)} ::
      At(buf, offset, encode(x)) ==> decode(buf, offset, i) == Ok(norm(x, i), offset + |encode(x)|)
  }

  lemma {:induction false} AllRoundTrip<T, U>(
    encode: T -> Bytes, decode: (Bytes, nat, nat) -> Parsed<U>, norm: (T, nat) -> U,
    buf: Bytes, offset: nat, xs: seq<T>, i: nat)
    requires At(buf, offset, EncodeAll(encode, xs))
    requires forall x :: x in xs ==> ReadsBack(encode, decode, norm, buf, x)
    ensures DecodeAll(decode, buf, offset, i, i + |xs|)
         == Ok(MapIndexed(norm, xs, i), offset + |EncodeAll(encode, xs)|)
    decreases |xs|
  {
    hide At;
    if xs != [] {
      var x, tail := xs[0], xs[1..];
      At2(buf, offset, encode(x), EncodeAll(encode, tail));
      AllRoundTrip(encode, decode, norm, buf, offset + |encode(x)|, tail, i + 1);
      assert ReadsBack(encode, decode, norm, buf, x);
      assert decode(buf, offset, i) == Ok(norm(x, i), offset + |encode(x)|);
      assert i + |xs| == i + 1 + |tail|;
      assert MapIndexed(norm, xs, i) == [norm(x, i)] + MapIndexed(norm, tail, i + 1);
    }
  }

  /** A counted list decodes to the normal form of its records and consumes exactly its encoding. */
  lemma CountedRoundTrip<T, U>(
    encode: T -> Bytes, decode: (Bytes, nat, nat) -> Parsed<U>, norm: (T, nat) -> U,
    buf: Bytes, offset: nat, xs: seq<T>)
    requires IsU32(|xs|) && At(buf, offset, Counted(encode, xs))
    requires forall x :: x in xs ==> ReadsBack(encode, decode, norm, buf, x)
    ensures DecodeCounted(decode, buf, offset)
         == Ok(MapIndexed(norm, xs, 0), offset + |Counted(encode, xs)|)
  {
    At2(buf, offset, U32Bytes(|xs|), EncodeAll(encode, xs));
    AtU32(buf, offset, |xs|);
    AllRoundTrip(encode, decode, norm, buf, offset + 4, xs, 0);
  }

  /** Lists whose records pairwise encode alike encode alike. */
  lemma {:induction false} EncodeAllCongruence<T, U>(f: T -> Bytes, g: U -> Bytes, xs: seq<T>, ys: seq<U>)
    requires |xs| == |ys| && forall i :: 0 <= i < |xs| ==> f(xs[i]) == g(ys[i])
    ensures EncodeAll(f, xs) == EncodeAll(g, ys)
  {
    if xs != [] { EncodeAllCongruence(f, g, xs[1..], ys[1..]); }
  }

  lemma {:induction false} EncodeAllAppend<T>(encode: T -> Bytes, xs: seq<T>, ys: seq<T>)
    ensures EncodeAll(encode, xs + ys) == EncodeAll(encode, xs) + EncodeAll(encode, ys)
  {
    if xs == [] {
      assert xs + ys == ys;
    } else {
      assert (xs + ys)[1..] == xs[1..] + ys;
      EncodeAllAppend(encode, xs[1..], ys);
    }
  }

  /** One more record read after a list that was read, as the body of a decoding loop does it. */
  function DecodeNext<T>(decode: (Bytes, nat, nat) -> Parsed<T>, buf: Bytes, done: Parsed<seq<T>>, i: nat)
    : Parsed<seq<T>>
  {
    var (xs, o1) :- done;
    var (x, o2) :- decode(buf, o1, i);
    Ok(xs + [x], o2)
  }

  lemma {:induction false} DecodeAllSnoc<T>(
    decode: (Bytes, nat, nat) -> Parsed<T>, buf: Bytes, offset: nat, i: nat, n: nat)
    requires i <= n
    ensures DecodeAll(decode, buf, offset, i, n + 1)
         == DecodeNext(decode, buf, DecodeAll(decode, buf, offset, i, n), n)
    decreases n - i
  {
    if i == n {
      var r := decode(buf, offset, n);
      if r.Ok? { assert [r.value] + [] == [] + [r.value]; }
    } else if decode(buf, offset, i).Ok? {
      var Ok(x, o) := decode(buf, offset, i);
      DecodeAllSnoc(decode, buf, o, i + 1, n);
      var rest := DecodeAll(decode, buf, o, i + 1, n);
      if rest.Ok? && decode(buf, rest.next, n).Ok? {
        var last := [decode(buf, rest.next, n).value];
        assert [x] + (rest.value + last) == ([x] + rest.value) + last;
      }
    }
  }

  // ---------------------------------------------------------------- records that are one field

  function TextBytes(s: Text): Bytes { CStr(s) }

  function DecodeText(buf: Bytes, offset: nat, i: nat): Parsed<Text> { ReadCStr(buf, offset) }

  function DecodeU32(buf: Bytes, offset: nat, i: nat): Parsed<int> { ReadU32(buf, offset) }

  function Same<T>(x: T, i: nat): T { x }

  lemma TextReadsBack(buf: Bytes, s: Text)
    ensures ReadsBack<Text, Text>(TextBytes, DecodeText, Same, buf, s)
  {
    forall offset: nat, i: nat | At(buf, offset, TextBytes(s))
      ensures DecodeText(buf, offset, i) == Ok(s, offset + |TextBytes(s)|)
    {
      AtCStr(buf, offset, s);
    }
  }

  lemma U32ReadsBack(buf: Bytes, n: int)
    requires IsU32(n)
    ensures ReadsBack(U32Bytes, DecodeU32, Same, buf, n)
  {
    forall offset: nat, i: nat | At(buf, offset, U32Bytes(n))
      ensures DecodeU32(buf, offset, i) == Ok(n, offset + 4)
    {
      AtU32(buf, offset, n);
    }
  }

  lemma SameList<T>(xs: seq<T>)
    ensures MapIndexed(Same, xs, 0) == xs
  {
  }
}
