/**
 Base64 with optional line breaks (section 6.8 of RFC 2045, section 3 of RFC 3548). Letters are ASCII
 codes; shifts and masks by constants are written as division and remainder, and the bitwise or of
 disjoint bits as a sum.
 */
module Base64 {
  import opened Machine

  const PAD: byte := 61      // '='
  const NEWLINE: byte := 10
  const EX: byte := 255
  const WS: byte := 254

  /** The encoding alphabet: A-Z, a-z, 0-9, + and /. */
  function Letter(v: nat): byte
    requires v < 64
  {
    if v < 26 then 65 + v
    else if v < 52 then 97 + (v - 26)
    else if v < 62 then 48 + (v - 52)
    else if v == 62 then 43
    else 47
  }

  /** The decoding table: a value below 64, WS for skipped characters, EX for all others. */
  function Decoding64(c: byte): byte {
    if c == 9 || c == 10 || c == 13 || c == 32 || c == 61 then WS
    else if c == 43 then 62
    else if c == 47 then 63
    else if 48 <= c <= 57 then 52 + (c - 48)
    else if 65 <= c <= 90 then c - 65
    else if 97 <= c <= 122 then 26 + (c - 97)
    else EX
  }

  lemma DecodingInvertsLetter(v: nat)
    requires v < 64
    ensures Decoding64(Letter(v)) == v
  {
  }

  // ----- The tables -----

  const UPPER := "ABCDEFGHIJKLMNOPQRSTUVWXYZ"
  const LOWER := "abcdefghijklmnopqrstuvwxyz"
  const DIGITS := "0123456789+/"
  const ALPHABET := UPPER + LOWER + DIGITS

  predicate IsLetter(c: byte) {
    65 <= c <= 90 || 97 <= c <= 122 || 48 <= c <= 57 || c == 43 || c == 47
  }

  /** Tab, newline, carriage return, blank and the padding character. */
  predicate IsSkipped(c: byte) {
    c == 9 || c == 10 || c == 13 || c == 32 || c == 61
  }

  /** Value v is written as the v-th character of the alphabet. */
  lemma EncodingTable(v: nat)
    requires v < 64
    ensures |ALPHABET| == 64 && Letter(v) == ALPHABET[v] as int && IsLetter(Letter(v))
  {
    if v < 26 {
      UpperTable(v);
    } else if v < 52 {
      LowerTable(v - 26);
    } else {
      OtherTable(v - 52);
    }
  }

  lemma UpperTable(v: nat)
    requires v < 26
    ensures UPPER[v] as int == 65 + v
  {
  }

  lemma LowerTable(v: nat)
    requires v < 26
    ensures LOWER[v] as int == 97 + v
  {
  }

  lemma OtherTable(v: nat)
    requires v < 12
    ensures DIGITS[v] as int == if v < 10 then 48 + v else if v == 10 then 43 else 47
  {
  }

  /** A character has the value it has in the alphabet, is skipped, or is invalid. */
  lemma DecodingTable(c: byte)
    ensures Decoding64(c) < 64 <==> IsLetter(c)
    ensures Decoding64(c) < 64 ==> |ALPHABET| == 64 && ALPHABET[Decoding64(c)] as int == c
    ensures Decoding64(c) == WS <==> IsSkipped(c)
    ensures Decoding64(c) == EX <==> !IsLetter(c) && !IsSkipped(c)
  {
    if Decoding64(c) < 64 {
      assert Letter(Decoding64(c)) == c;
      EncodingTable(Decoding64(c));
    }
  }

  // ----- Encoding -----

  /** The four letters of a full block. */
  function Block(a: byte, b: byte, c: byte): seq<byte> {
    [Letter(a / 4), Letter(a % 4 * 16 + b / 16), Letter(b % 16 * 4 + c / 64), Letter(c % 64)]
  }

  /** What is written for the rest x of the input when the current line already holds col letters. */
  function EncodeFrom(x: seq<byte>, lineBreak: nat, col: nat): seq<byte>
    decreases |x|
  {
    if |x| == 0 then []
    else if |x| == 1 then
      [Letter(x[0] / 4), Letter(x[0] % 4 * 16), PAD, PAD]
    else if |x| == 2 then
      [Letter(x[0] / 4), Letter(x[0] % 4 * 16 + x[1] / 16), Letter(x[1] % 16 * 4), PAD]
    else if lineBreak > 0 && col + 4 >= lineBreak then
      Block(x[0], x[1], x[2]) + [NEWLINE] + EncodeFrom(x[3..], lineBreak, 0)
    else
      Block(x[0], x[1], x[2]) + EncodeFrom(x[3..], lineBreak, col + 4)
  }

  /** Writes the letters of one block; ended tells that the input ended and padding was written. */
  method EncodeBlock(data: seq<byte>, i: nat, out: seq<byte>) returns (next: nat, r: seq<byte>, ended: bool)
    requires i < |data|
    ensures ended <==> |data| - i < 3
    ensures |data| - i == 1 ==> r == out + [Letter(data[i] / 4), Letter(data[i] % 4 * 16), PAD, PAD]
    ensures |data| - i == 2 ==>
      r == out + [Letter(data[i] / 4), Letter(data[i] % 4 * 16 + data[i + 1] / 16), Letter(data[i + 1] % 16 * 4), PAD]
    ensures |data| - i >= 3 ==> next == i + 3 && r == out + Block(data[i], data[i + 1], data[i + 2])
  {
    hide Letter;
    next := i;
    var fragment := data[next];
    next := next + 1;
    var result := fragment / 4;
    r := out + [Letter(result)];
    result := fragment % 4 * 16;
    if next == |data| {
      r := r + [Letter(result)];
      r := r + [PAD];
      r := r + [PAD];
      return next, r, true;
    }
    fragment := data[next];
    next := next + 1;
    result := result + fragment / 16;
    r := r + [Letter(result)];
    result := fragment % 16 * 4;
    if next == |data| {
      r := r + [Letter(result)];
      r := r + [PAD];
      return next, r, true;
    }
    fragment := data[next];
    next := next + 1;
    result := result + fragment / 64;
    r := r + [Letter(result)];
    result := fragment % 64;
    r := r + [Letter(result)];
    ended := false;
  }

  method Base64Encode(data: seq<byte>, lineBreak: nat) returns (out: seq<byte>)
    ensures out == EncodeFrom(data, lineBreak, 0)
  {
    hide Letter, Block, EncodeFrom;
    out := [];
    EncodeUnfold([], lineBreak, 0);
    if |data| == 0 {
      return;
    }
    var i, lineBegin := 0, 0;
    assert data[0..] == data;
    while true
      invariant 0 <= i <= |data| && 0 <= lineBegin <= |out|
      invariant EncodeFrom(data, lineBreak, 0) == out + EncodeFrom(data[i..], lineBreak, |out| - lineBegin)
      decreases |data| - i
    {
      EncodeUnfold(data[i..], lineBreak, |out| - lineBegin);
      if i == |data| {
        return;
      }
      ghost var rest, written := data[i..], out;
      var ended;
      i, out, ended := EncodeBlock(data, i, out);
      if ended {
        return;
      }
      assert rest[3..] == data[i..];
      BlockLength(rest[0], rest[1], rest[2]);
      if lineBreak > 0 && |out| - lineBegin >= lineBreak {
        out := out + [NEWLINE];
        lineBegin := |out|;
      }
    }
  }

  lemma EncodeUnfold(x: seq<byte>, lineBreak: nat, col: nat)
    ensures |x| == 0 ==> EncodeFrom(x, lineBreak, col) == []
    ensures |x| == 1 ==>
      EncodeFrom(x, lineBreak, col) == [Letter(x[0] / 4), Letter(x[0] % 4 * 16), PAD, PAD]
    ensures |x| == 2 ==>
      EncodeFrom(x, lineBreak, col)
      == [Letter(x[0] / 4), Letter(x[0] % 4 * 16 + x[1] / 16), Letter(x[1] % 16 * 4), PAD]
    ensures |x| >= 3 && lineBreak > 0 && col + 4 >= lineBreak ==>
      EncodeFrom(x, lineBreak, col) == Block(x[0], x[1], x[2]) + [NEWLINE] + EncodeFrom(x[3..], lineBreak, 0)
    ensures |x| >= 3 && !(lineBreak > 0 && col + 4 >= lineBreak) ==>
      EncodeFrom(x, lineBreak, col) == Block(x[0], x[1], x[2]) + EncodeFrom(x[3..], lineBreak, col + 4)
  {
  }

  lemma BlockLength(a: byte, b: byte, c: byte)
    ensures |Block(a, b, c)| == 4
  {
  }

  // ----- Decoding -----

  datatype Result = Ok(value: seq<byte>) | InvalidCharacter

  function Prepend(b: byte, r: Result): Result {
    match r case Ok(v) => Ok([b] + v) case InvalidCharacter => InvalidCharacter
  }

  /** The carried bits leave room for those still to come. */
  predicate CarryOk(step: nat, outchar: byte) {
    || step == 0
    || (step == 1 && outchar % 4 == 0)
    || (step == 2 && outchar % 16 == 0)
    || (step == 3 && outchar % 64 == 0)
  }

  /** The byte completed by a letter of value v after the first letter of a block. */
  function Completed(step: nat, outchar: byte, v: nat): byte
    requires CarryOk(step, outchar) && 1 <= step <= 3 && v < 64
  {
    if step == 1 then outchar + v / 16
    else if step == 2 then outchar + v / 4
    else outchar + v
  }

  /** The bits carried over after a letter of value v. */
  function Carry(step: nat, v: nat): (outchar: byte)
    requires step <= 3 && v < 64
    ensures CarryOk((step + 1) % 4, outchar)
  {
    if step == 0 then v * 4
    else if step == 1 then v % 16 * 16
    else if step == 2 then v % 4 * 64
    else 0
  }

  /**
   What is decoded from the rest s of the input: step counts the letters of the current block already
   seen, outchar holds the bits carried over from the last of them.
   */
  function DecodeFrom(s: seq<byte>, step: nat, outchar: byte, strict: bool): Result
    requires CarryOk(step, outchar)
    decreases |s|
  {
    if s == [] then Ok([])
    else
      var fragment := Decoding64(s[0]);
      if fragment == EX && strict then InvalidCharacter
      else if fragment >= WS then DecodeFrom(s[1..], step, outchar, strict)
      else
        DecodingRange(s[0]);
        if step == 0 then DecodeFrom(s[1..], 1, Carry(0, fragment), strict)
        else Prepend(Completed(step, outchar, fragment), DecodeFrom(s[1..], (step + 1) % 4, Carry(step, fragment), strict))
  }

  /** A character that carries no value is skipped. */
  lemma SkipOne(c: byte, s: seq<byte>, step: nat, outchar: byte, strict: bool)
    requires CarryOk(step, outchar)
    requires Decoding64(c) == WS
    ensures DecodeFrom([c] + s, step, outchar, strict) == DecodeFrom(s, step, outchar, strict)
  {
    assert ([c] + s)[1..] == s;
  }

  lemma LetterOne(v: nat, s: seq<byte>, step: nat, outchar: byte, strict: bool)
    requires v < 64 && CarryOk(step, outchar)
    ensures DecodeFrom([Letter(v)] + s, step, outchar, strict) ==
      if step == 0 then DecodeFrom(s, 1, Carry(0, v), strict)
      else Prepend(Completed(step, outchar, v), DecodeFrom(s, (step + 1) % 4, Carry(step, v), strict))
  {
    DecodingInvertsLetter(v);
    assert ([Letter(v)] + s)[1..] == s;
  }

  /** Skips to the next letter; ended tells that the input is exhausted first. */
  method NextLetter(data: seq<byte>, i: nat, strict: bool, ghost step: nat, ghost outchar: byte)
    returns (next: nat, fragment: byte, ended: bool, invalid: bool)
    requires i <= |data| && CarryOk(step, outchar)
    ensures i <= next <= |data|
    ensures invalid ==> DecodeFrom(data[i..], step, outchar, strict) == InvalidCharacter
    ensures !invalid && ended ==> DecodeFrom(data[i..], step, outchar, strict) == Ok([])
    ensures !invalid && !ended ==>
      && i < next && fragment < 64 && fragment == Decoding64(data[next - 1])
      && DecodeFrom(data[i..], step, outchar, strict) == DecodeFrom(data[next - 1..], step, outchar, strict)
  {
    hide Decoding64;
    next := i;
    fragment := EX;
    while true
      invariant i <= next <= |data|
      invariant DecodeFrom(data[i..], step, outchar, strict) == DecodeFrom(data[next..], step, outchar, strict)
      decreases |data| - next
    {
      if next == |data| {
        return next, fragment, true, false;
      }
      fragment := Decoding64(data[next]);
      DecodingRange(data[next]);
      assert data[next..][1..] == data[next + 1..];
      next := next + 1;
      if fragment == EX && strict {
        return next, fragment, false, true;
      }
      if fragment < WS {
        return next, fragment, false, false;
      }
    }
  }

  lemma DecodingRange(c: byte)
    ensures Decoding64(c) < 64 || Decoding64(c) == WS || Decoding64(c) == EX
  {
  }

  /** One letter into the block. */
  lemma DecodeLetter(data: seq<byte>, k: nat, step: nat, outchar: byte, strict: bool)
    requires k < |data| && CarryOk(step, outchar) && Decoding64(data[k]) < 64
    ensures var v := Decoding64(data[k]); var t := data[k + 1..];
      DecodeFrom(data[k..], step, outchar, strict) ==
        if step == 0 then DecodeFrom(t, 1, Carry(0, v), strict)
        else Prepend(Completed(step, outchar, v), DecodeFrom(t, (step + 1) % 4, Carry(step, v), strict))
  {
    assert data[k..][1..] == data[k + 1..];
  }

  function Append(out: seq<byte>, r: Result): Result {
    match r case Ok(v) => Ok(out + v) case InvalidCharacter => InvalidCharacter
  }

  lemma AppendPrepend(out: seq<byte>, b: byte, r: Result)
    ensures Append(out, Prepend(b, r)) == Append(out + [b], r)
  {
    if r.Ok? {
      assert out + ([b] + r.value) == out + [b] + r.value;
    }
  }

  lemma AppendNothing(r: Result)
    ensures Append([], r) == r
  {
  }

  lemma AppendEnd(out: seq<byte>)
    ensures Append(out, Ok([])) == Ok(out)
    ensures Append(out, InvalidCharacter) == InvalidCharacter
  {
  }

  method Base64Decode(data: seq<byte>, strict: bool) returns (result: Result)
    ensures result == DecodeFrom(data, 0, 0, strict)
  {
    hide Decoding64, DecodeFrom, Prepend, Append;
    var i := 0;
    AppendNothing(DecodeFrom(data, 0, 0, strict));
    var out := [];
    assert data[0..] == data;
    while true
      invariant 0 <= i <= |data|
      invariant DecodeFrom(data, 0, 0, strict) == Append(out, DecodeFrom(data[i..], 0, 0, strict))
      decreases |data| - i
    {
      AppendEnd(out);
      var fragment: byte, ended, invalid;
      i, fragment, ended, invalid := NextLetter(data, i, strict, 0, 0);
      if invalid { return InvalidCharacter; }
      if ended { return Ok(out); }
      DecodeLetter(data, i - 1, 0, 0, strict);
      var outchar: byte := fragment * 4;

      ghost var carry := outchar;
      i, fragment, ended, invalid := NextLetter(data, i, strict, 1, carry);
      if invalid { return InvalidCharacter; }
      if ended { return Ok(out); }
      DecodeLetter(data, i - 1, 1, carry, strict);
      outchar := outchar + fragment / 16;
      AppendPrepend(out, outchar, DecodeFrom(data[i..], 2, fragment % 16 * 16, strict));
      out := out + [outchar];
      outchar := fragment % 16 * 16;
      AppendEnd(out);

      carry := outchar;
      i, fragment, ended, invalid := NextLetter(data, i, strict, 2, carry);
      if invalid { return InvalidCharacter; }
      if ended { return Ok(out); }
      DecodeLetter(data, i - 1, 2, carry, strict);
      outchar := outchar + fragment / 4;
      AppendPrepend(out, outchar, DecodeFrom(data[i..], 3, fragment % 4 * 64, strict));
      out := out + [outchar];
      outchar := fragment % 4 * 64;
      AppendEnd(out);

      carry := outchar;
      i, fragment, ended, invalid := NextLetter(data, i, strict, 3, carry);
      if invalid { return InvalidCharacter; }
      if ended { return Ok(out); }
      DecodeLetter(data, i - 1, 3, carry, strict);
      outchar := outchar + fragment;
      AppendPrepend(out, outchar, DecodeFrom(data[i..], 0, 0, strict));
      out := out + [outchar];
    }
  }

  // ----- Laws -----

  lemma PadTail(strict: bool, step: nat, outchar: byte)
    requires CarryOk(step, outchar)
    ensures DecodeFrom([PAD] + [], step, outchar, strict) == Ok([])
    ensures DecodeFrom([PAD] + ([PAD] + []), step, outchar, strict) == Ok([])
  {
    SkipOne(PAD, [], step, outchar, strict);
    SkipOne(PAD, [PAD] + [], step, outchar, strict);
  }

  lemma OneByteBlock(a: byte, strict: bool)
    ensures DecodeFrom([Letter(a / 4), Letter(a % 4 * 16), PAD, PAD], 0, 0, strict) == Ok([a])
  {
    hide Letter, DecodeFrom;
    var s2 := [PAD] + ([PAD] + []);
    LetterOne(a / 4, [Letter(a % 4 * 16)] + s2, 0, 0, strict);
    LetterOne(a % 4 * 16, s2, 1, a / 4 * 4, strict);
    PadTail(strict, 2, 0);
    assert [Letter(a / 4), Letter(a % 4 * 16), PAD, PAD] == [Letter(a / 4)] + ([Letter(a % 4 * 16)] + s2);
  }

  lemma TwoByteBlock(a: byte, b: byte, strict: bool)
    ensures DecodeFrom([Letter(a / 4), Letter(a % 4 * 16 + b / 16), Letter(b % 16 * 4), PAD], 0, 0, strict) == Ok([a, b])
  {
    hide Letter, DecodeFrom;
    var l1, l2, l3 := Letter(a / 4), Letter(a % 4 * 16 + b / 16), Letter(b % 16 * 4);
    var s3 := [PAD] + [];
    LetterOne(a / 4, [l2] + ([l3] + s3), 0, 0, strict);
    LetterOne(a % 4 * 16 + b / 16, [l3] + s3, 1, a / 4 * 4, strict);
    LetterOne(b % 16 * 4, s3, 2, b / 16 * 16, strict);
    PadTail(strict, 3, 0);
    assert [l1, l2, l3, PAD] == [l1] + ([l2] + ([l3] + s3));
    SplitBits(a, b);
  }

  lemma SplitBits(a: byte, b: byte)
    ensures (a % 4 * 16 + b / 16) / 16 == a % 4
    ensures (a % 4 * 16 + b / 16) % 16 == b / 16
    ensures (b % 16 * 4 + a / 64) / 4 == b % 16
    ensures (b % 16 * 4 + a / 64) % 4 == a / 64
    ensures b % 16 * 4 / 4 == b % 16
    ensures b % 16 * 4 % 4 == 0
  {
  }

  lemma FullBlock(a: byte, b: byte, c: byte, rest: seq<byte>, strict: bool)
    ensures DecodeFrom(Block(a, b, c) + rest, 0, 0, strict) == Append([a, b, c], DecodeFrom(rest, 0, 0, strict))
  {
    hide Letter, DecodeFrom;
    var v2, v3 := a % 4 * 16 + b / 16, b % 16 * 4 + c / 64;
    var l2, l3, l4 := Letter(v2), Letter(v3), Letter(c % 64);
    SplitBits(a, b);
    SplitBits(c, b);
    LetterOne(a / 4, [l2] + ([l3] + ([l4] + rest)), 0, 0, strict);
    LetterOne(v2, [l3] + ([l4] + rest), 1, a / 4 * 4, strict);
    LetterOne(v3, [l4] + rest, 2, b / 16 * 16, strict);
    LetterOne(c % 64, rest, 3, c / 64 * 64, strict);
    assert Block(a, b, c) + rest == [Letter(a / 4)] + ([l2] + ([l3] + ([l4] + rest)));
    hide Block;
    ThreePrepends(a, b, c, DecodeFrom(rest, 0, 0, strict));
  }

  lemma ThreePrepends(a: byte, b: byte, c: byte, r: Result)
    ensures Prepend(a, Prepend(b, Prepend(c, r))) == Append([a, b, c], r)
  {
    if r.Ok? {
      assert [a] + ([b] + ([c] + r.value)) == [a, b, c] + r.value;
    }
  }

  /** Decoding inverts encoding, for every input, every line length and in both modes. */
  lemma {:induction false} DecodeInvertsEncode(x: seq<byte>, lineBreak: nat, col: nat, strict: bool)
    ensures DecodeFrom(EncodeFrom(x, lineBreak, col), 0, 0, strict) == Ok(x)
    decreases |x|
  {
    hide Letter, DecodeFrom, Block, EncodeFrom;
    EncodeUnfold(x, lineBreak, col);
    if |x| == 0 {
      DecodeNothing(strict);
    } else if |x| == 1 {
      OneByteBlock(x[0], strict);
    } else if |x| == 2 {
      TwoByteBlock(x[0], x[1], strict);
    } else {
      var more := lineBreak > 0 && col + 4 >= lineBreak;
      var tail := EncodeFrom(x[3..], lineBreak, if more then 0 else col + 4);
      DecodeInvertsEncode(x[3..], lineBreak, if more then 0 else col + 4, strict);
      FullBlock(x[0], x[1], x[2], if more then [NEWLINE] + tail else tail, strict);
      if more {
        SkipOne(NEWLINE, tail, 0, 0, strict);
        assert Block(x[0], x[1], x[2]) + [NEWLINE] + tail == Block(x[0], x[1], x[2]) + ([NEWLINE] + tail);
      }
      assert x == [x[0], x[1], x[2]] + x[3..];
    }
  }

  lemma DecodeNothing(strict: bool)
    ensures DecodeFrom([], 0, 0, strict) == Ok([])
  {
  }

  /** Strict decoding fails exactly on inputs with a character outside alphabet, padding and blanks. */
  lemma {:induction false} StrictFailsExactlyOnInvalid(s: seq<byte>, step: nat, outchar: byte, strict: bool)
    requires CarryOk(step, outchar)
    ensures DecodeFrom(s, step, outchar, strict).InvalidCharacter?
      <==> strict && exists i :: 0 <= i < |s| && !IsLetter(s[i]) && !IsSkipped(s[i])
    decreases |s|
  {
    if s != [] {
      var v, t := Decoding64(s[0]), s[1..];
      DecodingTable(s[0]);
      hide Decoding64, IsLetter, IsSkipped;
      if v >= WS {
        StrictFailsExactlyOnInvalid(t, step, outchar, strict);
      } else {
        StrictFailsExactlyOnInvalid(t, (step + 1) % 4, Carry(step, v), strict);
      }
      ExistsSplit(s);
    }
  }

  lemma ExistsSplit(s: seq<byte>)
    requires s != []
    ensures (exists i :: 0 <= i < |s| && !IsLetter(s[i]) && !IsSkipped(s[i]))
      <==> (!IsLetter(s[0]) && !IsSkipped(s[0]))
           || exists i :: 0 <= i < |s[1..]| && !IsLetter(s[1..][i]) && !IsSkipped(s[1..][i])
  {
    hide IsLetter, IsSkipped;
    if exists i :: 0 <= i < |s| && !IsLetter(s[i]) && !IsSkipped(s[i]) {
      var i :| 0 <= i < |s| && !IsLetter(s[i]) && !IsSkipped(s[i]);
      assert i > 0 ==> s[1..][i - 1] == s[i];
    }
  }

  /** A tab, newline, carriage return, blank or padding inserted anywhere changes nothing, in either mode. */
  lemma {:induction false} SkippedAnywhere(s: seq<byte>, i: nat, c: byte, step: nat, outchar: byte, strict: bool)
    requires i <= |s| && CarryOk(step, outchar)
    requires c == 9 || c == 10 || c == 13 || c == 32 || c == 61
    ensures DecodeFrom(s[..i] + [c] + s[i..], step, outchar, strict) == DecodeFrom(s, step, outchar, strict)
    decreases i
  {
    var longer := s[..i] + [c] + s[i..];
    if i == 0 {
      assert longer == [c] + s;
      SkipOne(c, s, step, outchar, strict);
    } else {
      assert longer[1..] == s[1..][..i - 1] + [c] + s[1..][i - 1..];
      var v := Decoding64(s[0]);
      DecodingRange(s[0]);
      hide Decoding64;
      if v < WS {
        SkippedAnywhere(s[1..], i - 1, c, (step + 1) % 4, Carry(step, v), strict);
      } else {
        SkippedAnywhere(s[1..], i - 1, c, step, outchar, strict);
      }
    }
  }

  function OnlyValid(s: seq<byte>): seq<byte> {
    if s == [] then []
    else (if IsLetter(s[0]) || IsSkipped(s[0]) then [s[0]] else []) + OnlyValid(s[1..])
  }

  /** Lenient decoding is strict decoding of what is left without the invalid characters. */
  lemma {:induction false} LenientIgnoresInvalid(s: seq<byte>, step: nat, outchar: byte)
    requires CarryOk(step, outchar)
    ensures DecodeFrom(s, step, outchar, false) == DecodeFrom(OnlyValid(s), step, outchar, true)
    decreases |s|
  {
    if s != [] {
      var v, valid := Decoding64(s[0]), OnlyValid(s);
      DecodingTable(s[0]);
      hide Decoding64, IsLetter, IsSkipped;
      if v == EX {
        assert valid == OnlyValid(s[1..]);
      } else {
        assert valid[0] == s[0] && valid[1..] == OnlyValid(s[1..]);
      }
      if v < WS {
        LenientIgnoresInvalid(s[1..], (step + 1) % 4, Carry(step, v));
      } else {
        LenientIgnoresInvalid(s[1..], step, outchar);
      }
    }
  }

  // ----- Lines -----

  function WithoutNewlines(s: seq<byte>): seq<byte> {
    if s == [] then []
    else (if s[0] == NEWLINE then [] else [s[0]]) + WithoutNewlines(s[1..])
  }

  lemma {:induction false} WithoutNewlinesAppend(s: seq<byte>, t: seq<byte>)
    ensures WithoutNewlines(s + t) == WithoutNewlines(s) + WithoutNewlines(t)
    decreases |s|
  {
    if s == [] {
      assert s + t == t;
    } else {
      assert (s + t)[1..] == s[1..] + t;
      WithoutNewlinesAppend(s[1..], t);
    }
  }

  lemma {:induction false} NoNewlines(s: seq<byte>)
    requires NEWLINE !in s
    ensures WithoutNewlines(s) == s
  {
    if s != [] {
      NoNewlines(s[1..]);
      assert s == [s[0]] + s[1..];
    }
  }

  lemma BlockHasNoNewline(a: byte, b: byte, c: byte)
    ensures NEWLINE !in Block(a, b, c)
  {
  }

  /** Breaking lines only inserts newlines: deleting them gives the unbroken encoding. */
  lemma {:induction false} LineBreaksOnlyInsert(x: seq<byte>, lineBreak: nat, col: nat, col0: nat)
    ensures WithoutNewlines(EncodeFrom(x, lineBreak, col)) == EncodeFrom(x, 0, col0)
    decreases |x|
  {
    if |x| < 3 {
      NoNewlines(EncodeFrom(x, lineBreak, col));
    } else {
      var more := lineBreak > 0 && col + 4 >= lineBreak;
      var block := Block(x[0], x[1], x[2]);
      var tail := EncodeFrom(x[3..], lineBreak, if more then 0 else col + 4);
      BlockHasNoNewline(x[0], x[1], x[2]);
      hide Block, Letter;
      NoNewlines(block);
      LineBreaksOnlyInsert(x[3..], lineBreak, if more then 0 else col + 4, col0 + 4);
      if more {
        NewlineVanishes();
        WithoutNewlinesAppend(block, [NEWLINE]);
        WithoutNewlinesAppend(block + [NEWLINE], tail);
      } else {
        WithoutNewlinesAppend(block, tail);
      }
    }
  }

  lemma NewlineVanishes()
    ensures WithoutNewlines([NEWLINE]) == []
  {
    assert WithoutNewlines([NEWLINE][1..]) == [];
  }

  /** The letters of a line: lineBreak rounded up to whole blocks. */
  function LineLength(lineBreak: nat): nat {
    4 * ((lineBreak + 3) / 4)
  }

  /** A text whose first line already has col letters: newlines come after exactly length letters. */
  predicate IsBroken(s: seq<byte>, length: nat, col: nat) {
    if s == [] then col <= length
    else if s[0] == NEWLINE then col == length && IsBroken(s[1..], length, 0)
    else col < length && IsBroken(s[1..], length, col + 1)
  }

  lemma {:induction false} BrokenAppend(s: seq<byte>, t: seq<byte>, length: nat, col: nat)
    requires NEWLINE !in s && col + |s| <= length
    ensures IsBroken(s + t, length, col) == IsBroken(t, length, col + |s|)
    decreases |s|
  {
    if s == [] {
      assert s + t == t;
    } else {
      assert (s + t)[1..] == s[1..] + t;
      BrokenAppend(s[1..], t, length, col + 1);
    }
  }

  /** Every newline-terminated line has exactly LineLength letters, and no line has more. */
  lemma {:induction false} LinesHaveFullLength(x: seq<byte>, lineBreak: nat, col: nat)
    requires lineBreak > 0 && col % 4 == 0 && col < lineBreak
    ensures IsBroken(EncodeFrom(x, lineBreak, col), LineLength(lineBreak), col)
    decreases |x|
  {
    var length := LineLength(lineBreak);
    LineStep(lineBreak, col);
    hide Letter, LineLength, EncodeFrom, Block, IsBroken;
    if |x| < 3 {
      LastLine(x, lineBreak, length, col);
    } else {
      EncodeFirst(x, lineBreak, col);
      var block, line := Block(x[0], x[1], x[2]), col + 4;
      BlockHasNoNewline(x[0], x[1], x[2]);
      BlockLength(x[0], x[1], x[2]);
      if line >= lineBreak {
        var tail := EncodeFrom(x[3..], lineBreak, 0);
        LinesHaveFullLength(x[3..], lineBreak, 0);
        BrokenAppend(block, [NEWLINE] + tail, length, col);
        NewLine(tail, length);
      } else {
        LinesHaveFullLength(x[3..], lineBreak, line);
        BrokenAppend(block, EncodeFrom(x[3..], lineBreak, line), length, col);
      }
    }
  }

  lemma EncodeFirst(x: seq<byte>, lineBreak: nat, col: nat)
    requires |x| >= 3
    ensures EncodeFrom(x, lineBreak, col) == Block(x[0], x[1], x[2]) +
      if lineBreak > 0 && col + 4 >= lineBreak then [NEWLINE] + EncodeFrom(x[3..], lineBreak, 0)
      else EncodeFrom(x[3..], lineBreak, col + 4)
  {
    EncodeUnfold(x, lineBreak, col);
    hide EncodeFrom, Block;
    var tail := EncodeFrom(x[3..], lineBreak, 0);
    assert Block(x[0], x[1], x[2]) + [NEWLINE] + tail == Block(x[0], x[1], x[2]) + ([NEWLINE] + tail);
  }

  lemma LastLine(x: seq<byte>, lineBreak: nat, length: nat, col: nat)
    requires |x| < 3 && col + 4 <= length
    ensures IsBroken(EncodeFrom(x, lineBreak, col), length, col)
  {
    var s := EncodeFrom(x, lineBreak, col);
    ShortHasNoNewline(x, lineBreak, col);
    hide EncodeFrom;
    BrokenAppend(s, [], length, col);
    assert s + [] == s;
  }

  lemma NewLine(tail: seq<byte>, length: nat)
    ensures IsBroken([NEWLINE] + tail, length, length) == IsBroken(tail, length, 0)
  {
    assert ([NEWLINE] + tail)[1..] == tail;
  }

  lemma LineStep(lineBreak: nat, col: nat)
    requires lineBreak > 0 && col % 4 == 0 && col < lineBreak
    ensures col + 4 <= LineLength(lineBreak) && (col + 4 >= lineBreak ==> col + 4 == LineLength(lineBreak))
  {
  }

  lemma ShortHasNoNewline(x: seq<byte>, lineBreak: nat, col: nat)
    requires |x| < 3
    ensures NEWLINE !in EncodeFrom(x, lineBreak, col) && |EncodeFrom(x, lineBreak, col)| <= 4
  {
  }

  // ----- The same bits -----

  /** Bit k of a string of numbers of the given width, most significant bits first, and zeros after its end. */
  function Bit(x: seq<byte>, width: nat, k: nat): nat
    requires width > 0
  {
    if k / width < |x| then BitOf(x[k / width], width, k % width) else 0
  }

  function BitOf(v: byte, width: nat, j: nat): nat
    requires j < width
  {
    LowBit(v, width - 1 - j)
  }

  /** Bit i of v, counting from the least significant one. */
  function LowBit(v: nat, i: nat): nat {
    if i == 0 then v % 2 else LowBit(v / 2, i - 1)
  }

  /** The values of the letters in s. */
  function Values(s: seq<byte>): seq<byte> {
    if s == [] then []
    else if Decoding64(s[0]) < 64 then [Decoding64(s[0])] + Values(s[1..])
    else Values(s[1..])
  }

  /** The bits carried over when step letters of a block were read. */
  function Carried(step: nat): nat {
    if step == 0 || step > 3 then 0 else 8 - 2 * step
  }

  lemma BitNext(x: seq<byte>, width: nat, k: nat)
    requires x != [] && (width == 6 || width == 8)
    ensures k >= width ==> Bit(x, width, k) == Bit(x[1..], width, k - width)
    ensures k < width ==> Bit(x, width, k) == BitOf(x[0], width, k)
  {
    hide BitOf;
    if k >= width {
      assert (k - width) / width == k / width - 1 && (k - width) % width == k % width;
    }
  }

  lemma SmallPowers()
    ensures Pow2(0) == 1 && Pow2(1) == 2 && Pow2(2) == 4 && Pow2(3) == 8
    ensures Pow2(4) == 16 && Pow2(5) == 32 && Pow2(6) == 64
  {
  }

  /** A number made of two parts has the low bits of one and the high bits of the other. */
  lemma {:induction false} JoinedBits(high: nat, low: nat, n: nat, i: nat)
    requires low < Pow2(n)
    ensures 0 <= high * Pow2(n)
    ensures LowBit(high * Pow2(n) + low, i) == if i < n then LowBit(low, i) else LowBit(high, i - n)
    decreases n
  {
    if n > 0 {
      var p := Pow2(n - 1);
      assert high * Pow2(n) == 2 * (high * p);
      JoinedBits(high, low / 2, n - 1, if i > 0 then i - 1 else 0);
      HalfOfSum(high * p, low);
    }
  }

  lemma HalfOfSum(x: nat, low: nat)
    ensures (2 * x + low) / 2 == x + low / 2 && (2 * x + low) % 2 == low % 2
  {
  }

  lemma JoinedBitsIn(x: nat, high: nat, low: nat, n: nat, unit: nat, i: nat)
    requires unit == Pow2(n) && low < unit && x == high * unit + low
    ensures LowBit(x, i) == if i < n then LowBit(low, i) else LowBit(high, i - n)
  {
    JoinedBits(high, low, n, i);
  }

  lemma FirstLetterBits(v: byte, j: nat)
    requires v < 64 && j < 6
    ensures BitOf(Carry(0, v), 8, j) == BitOf(v, 6, j)
  {
    SmallPowers();
    hide Pow2, LowBit;
    JoinedBitsIn(v * 4, v, 0, 2, 4, 7 - j);
  }

  /** A completed byte holds the carried bits and then the first ones of the letter. */
  lemma CompletedBits(step: nat, outchar: byte, v: byte, j: nat)
    requires CarryOk(step, outchar) && 1 <= step <= 3 && v < 64 && j < 8
    ensures var p := Carried(step);
      BitOf(Completed(step, outchar, v), 8, j) == if j < p then BitOf(outchar, 8, j) else BitOf(v, 6, j - p)
  {
    SmallPowers();
    hide Pow2, LowBit;
    var i := 7 - j;
    if step == 1 {
      JoinedBitsIn(outchar + v / 16, outchar / 4, v / 16, 2, 4, i);
      JoinedBitsIn(outchar, outchar / 4, 0, 2, 4, i);
      JoinedBitsIn(v, v / 16, v % 16, 4, 16, i + 4);
    } else if step == 2 {
      JoinedBitsIn(outchar + v / 4, outchar / 16, v / 4, 4, 16, i);
      JoinedBitsIn(outchar, outchar / 16, 0, 4, 16, i);
      JoinedBitsIn(v, v / 4, v % 4, 2, 4, i + 2);
    } else {
      JoinedBitsIn(outchar + v, outchar / 64, v, 6, 64, i);
      JoinedBitsIn(outchar, outchar / 64, 0, 6, 64, i);
    }
  }

  /** What is carried are the letter's last bits. */
  lemma CarryBits(step: nat, v: byte, j: nat)
    requires 1 <= step <= 3 && v < 64 && j < Carried((step + 1) % 4)
    ensures BitOf(Carry(step, v), 8, j) == BitOf(v, 6, j + 8 - Carried(step))
  {
    SmallPowers();
    hide Pow2, LowBit;
    var i := 7 - j;
    if step == 1 {
      JoinedBitsIn(v % 16 * 16, v % 16, 0, 4, 16, i);
      JoinedBitsIn(v, v / 16, v % 16, 4, 16, i - 4);
    } else {
      JoinedBitsIn(v % 4 * 64, v % 4, 0, 6, 64, i);
      JoinedBitsIn(v, v / 4, v % 4, 2, 4, i - 6);
    }
  }

  /** The decoded bytes are the bits carried so far followed by those of the letters. */
  lemma {:induction false} DecodedBitsFrom(s: seq<byte>, step: nat, outchar: byte, strict: bool, k: nat)
    requires CarryOk(step, outchar) && DecodeFrom(s, step, outchar, strict).Ok?
    ensures var out, p := DecodeFrom(s, step, outchar, strict).value, Carried(step);
      && |out| == (p + 6 * |Values(s)|) / 8
      && (k < 8 * |out| ==> Bit(out, 8, k) == if k < p then BitOf(outchar, 8, k) else Bit(Values(s), 6, k - p))
    decreases |s|, 1
  {
    hide Decoding64, Bit, BitOf, DecodeFrom, Values;
    if s == [] {
      NoBits(step, outchar, strict);
    } else if Decoding64(s[0]) >= WS {
      SkippedBits(s, step, outchar, strict);
      hide Carried;
      DecodedBitsFrom(s[1..], step, outchar, strict, k);
    } else {
      DecodingRange(s[0]);
      if step == 0 {
        FirstLetterBitsFrom(s, outchar, strict, k, Decoding64(s[0]));
      } else {
        hide Carried;
        NextLetterBitsFrom(s, step, outchar, strict, k, Decoding64(s[0]));
      }
    }
  }

  lemma NoBits(step: nat, outchar: byte, strict: bool)
    requires CarryOk(step, outchar)
    ensures DecodeFrom([], step, outchar, strict) == Ok([]) && Values([]) == [] && Carried(step) < 8
  {
  }

  lemma SkippedBits(s: seq<byte>, step: nat, outchar: byte, strict: bool)
    requires s != [] && Decoding64(s[0]) >= WS
    requires CarryOk(step, outchar) && DecodeFrom(s, step, outchar, strict).Ok?
    ensures DecodeFrom(s[1..], step, outchar, strict) == DecodeFrom(s, step, outchar, strict)
    ensures Values(s) == Values(s[1..])
  {
    hide Decoding64;
  }

  lemma FirstLetterBitsFrom(s: seq<byte>, outchar: byte, strict: bool, k: nat, v: byte)
    requires s != [] && v == Decoding64(s[0]) < 64
    requires DecodeFrom(s, 0, outchar, strict).Ok?
    ensures var out := DecodeFrom(s, 0, outchar, strict).value;
      && |out| == 6 * |Values(s)| / 8
      && (k < 8 * |out| ==> Bit(out, 8, k) == Bit(Values(s), 6, k))
    decreases |s|, 0
  {
    hide Bit, BitOf, Decoding64;
    assert Values(s) == [v] + Values(s[1..]) && Values(s)[1..] == Values(s[1..]);
    assert DecodeFrom(s, 0, outchar, strict) == DecodeFrom(s[1..], 1, Carry(0, v), strict);
    DecodedBitsFrom(s[1..], 1, Carry(0, v), strict, k);
    BitNext(Values(s), 6, k);
    if k < 6 {
      FirstLetterBits(v, k);
    }
  }

  lemma NextLetterBitsFrom(s: seq<byte>, step: nat, outchar: byte, strict: bool, k: nat, v: byte)
    requires s != [] && v == Decoding64(s[0]) < 64 && 1 <= step <= 3 && CarryOk(step, outchar)
    requires DecodeFrom(s, step, outchar, strict).Ok?
    ensures var out, p := DecodeFrom(s, step, outchar, strict).value, Carried(step);
      && |out| == (p + 6 * |Values(s)|) / 8
      && (k < 8 * |out| ==> Bit(out, 8, k) == if k < p then BitOf(outchar, 8, k) else Bit(Values(s), 6, k - p))
    decreases |s|, 0
  {
    hide Bit, BitOf, Decoding64, Carried, CarryOk, Completed, Carry;
    var t, step' := s[1..], (step + 1) % 4;
    var b, carry := Completed(step, outchar, v), Carry(step, v);
    assert Values(s) == [v] + Values(t);
    assert DecodeFrom(s, step, outchar, strict) == Prepend(b, DecodeFrom(t, step', carry, strict));
    hide DecodeFrom, Values;
    DecodedBitsFrom(t, step', carry, strict, if k >= 8 then k - 8 else 0);
    OneMoreByte(step, outchar, v, DecodeFrom(t, step', carry, strict).value, Values(t), k);
  }

  lemma OneMoreByte(step: nat, outchar: byte, v: byte, rest: seq<byte>, values: seq<byte>, k: nat)
    requires 1 <= step <= 3 && CarryOk(step, outchar) && v < 64
    requires var carry, p' := Carry(step, v), Carried((step + 1) % 4);
      && |rest| == (p' + 6 * |values|) / 8
      && (8 <= k < 8 + 8 * |rest| ==>
            Bit(rest, 8, k - 8) == if k - 8 < p' then BitOf(carry, 8, k - 8) else Bit(values, 6, k - 8 - p'))
    ensures var out, p := [Completed(step, outchar, v)] + rest, Carried(step);
      && |out| == (p + 6 * |[v] + values|) / 8
      && (k < 8 * |out| ==> Bit(out, 8, k) == if k < p then BitOf(outchar, 8, k) else Bit([v] + values, 6, k - p))
  {
    hide Bit, BitOf, Completed, Carry, CarryOk;
    var out, p, p' := [Completed(step, outchar, v)] + rest, Carried(step), Carried((step + 1) % 4);
    BitNext(out, 8, k);
    assert out[1..] == rest && ([v] + values)[1..] == values;
    if k < 8 {
      CompletedBits(step, outchar, v, k);
    } else if k - 8 < p' {
      CarryBits(step, v, k - 8);
    }
    if k >= p {
      BitNext([v] + values, 6, k - p);
    }
  }

  /** Whatever decodes, its bytes are the bits of the letters' values, and there are as many as whole bytes in them. */
  lemma DecodedBits(s: seq<byte>, strict: bool, k: nat)
    requires DecodeFrom(s, 0, 0, strict).Ok?
    ensures var out, values := DecodeFrom(s, 0, 0, strict).value, Values(s);
      && |out| == 6 * |values| / 8
      && (k < 8 * |out| ==> Bit(out, 8, k) == Bit(values, 6, k))
  {
    hide DecodeFrom, Bit, Values;
    DecodedBitsFrom(s, 0, 0, strict, k);
  }

  lemma {:induction false} ValuesAppend(s: seq<byte>, t: seq<byte>)
    ensures Values(s + t) == Values(s) + Values(t)
    decreases |s|
  {
    hide Decoding64, Values;
    if s == [] {
      NoBits(0, 0, true);
      assert s + t == t;
    } else {
      assert s + t == [s[0]] + (s[1..] + t) && s == [s[0]] + s[1..];
      FirstValue(s[0], s[1..] + t);
      FirstValue(s[0], s[1..]);
      ValuesAppend(s[1..], t);
    }
  }

  lemma FirstValue(c: byte, t: seq<byte>)
    ensures Values([c] + t) == if Decoding64(c) < 64 then [Decoding64(c)] + Values(t) else Values(t)
  {
    hide Decoding64;
    assert ([c] + t)[1..] == t;
  }

  lemma ValueOfLetter(v: nat, t: seq<byte>)
    requires v < 64
    ensures Values([Letter(v)] + t) == [v as byte] + Values(t)
  {
    DecodingInvertsLetter(v);
    FirstValue(Letter(v), t);
  }

  lemma ValueOfOther(c: byte, t: seq<byte>)
    requires !IsLetter(c)
    ensures Values([c] + t) == Values(t)
  {
    DecodingTable(c);
    FirstValue(c, t);
  }

  lemma ValuesOfBlock(a: byte, b: byte, c: byte)
    ensures |Values(Block(a, b, c))| == 4
  {
    hide Letter, Values;
    var v2, v3 := a % 4 * 16 + b / 16, b % 16 * 4 + c / 64;
    var t3 := [Letter(c % 64)] + [];
    var t2 := [Letter(v3)] + t3;
    ValueOfLetter(c % 64, []);
    ValueOfLetter(v3, t3);
    ValueOfLetter(v2, t2);
    ValueOfLetter(a / 4, [Letter(v2)] + t2);
    assert Block(a, b, c) == [Letter(a / 4)] + ([Letter(v2)] + t2);
    NoValues();
  }

  lemma NoValues()
    ensures Values([]) == [] && Values([NEWLINE]) == [] && Values([PAD] + []) == [] && Values([PAD] + ([PAD] + [])) == []
  {
    ValueOfOther(NEWLINE, []);
    assert [NEWLINE] + [] == [NEWLINE];
    ValueOfOther(PAD, []);
    ValueOfOther(PAD, [PAD] + []);
  }

  /** The letters of what is left behind the last full block. */
  lemma ValuesOfRest(x: seq<byte>, lineBreak: nat, col: nat)
    requires |x| < 3
    ensures var values := Values(EncodeFrom(x, lineBreak, col));
      && |values| == (8 * |x| + 5) / 6
      && (|x| == 1 ==> values[1] == x[0] % 4 * 16)
      && (|x| == 2 ==> values[2] == x[1] % 16 * 4)
  {
    EncodeUnfold(x, lineBreak, col);
    hide Letter, Values, EncodeFrom;
    NoValues();
    if |x| == 1 {
      var t := [PAD] + ([PAD] + []);
      ValueOfLetter(x[0] % 4 * 16, t);
      ValueOfLetter(x[0] / 4, [Letter(x[0] % 4 * 16)] + t);
      assert EncodeFrom(x, lineBreak, col) == [Letter(x[0] / 4)] + ([Letter(x[0] % 4 * 16)] + t);
    } else if |x| == 2 {
      var v2, t := x[0] % 4 * 16 + x[1] / 16, [Letter(x[1] % 16 * 4)] + ([PAD] + []);
      ValueOfLetter(x[1] % 16 * 4, [PAD] + []);
      ValueOfLetter(v2, t);
      ValueOfLetter(x[0] / 4, [Letter(v2)] + t);
      assert EncodeFrom(x, lineBreak, col) == [Letter(x[0] / 4)] + ([Letter(v2)] + t);
    }
  }

  lemma ValuesOfFirst(x: seq<byte>, lineBreak: nat, col: nat) returns (col': nat)
    requires |x| >= 3
    ensures Values(EncodeFrom(x, lineBreak, col))
      == Values(Block(x[0], x[1], x[2])) + Values(EncodeFrom(x[3..], lineBreak, col'))
  {
    EncodeUnfold(x, lineBreak, col);
    hide Letter, Values, EncodeFrom, Block;
    var more := lineBreak > 0 && col + 4 >= lineBreak;
    col' := if more then 0 else col + 4;
    var block, rest := Block(x[0], x[1], x[2]), EncodeFrom(x[3..], lineBreak, col');
    if more {
      NoValues();
      ValuesAppend(block, [NEWLINE]);
      ValuesAppend(block + [NEWLINE], rest);
      assert Values(block) + [] == Values(block);
    } else {
      ValuesAppend(block, rest);
    }
  }

  lemma LetterCount(n: nat)
    requires n >= 3
    ensures (8 * n + 5) / 6 == 4 + (8 * (n - 3) + 5) / 6
  {
  }

  /** How many letters there are, and that the last one ends in zeros where the input ended. */
  lemma {:induction false} LastLetter(x: seq<byte>, lineBreak: nat, col: nat)
    ensures var values := Values(EncodeFrom(x, lineBreak, col));
      && |values| == (8 * |x| + 5) / 6
      && (|x| % 3 == 1 ==> values[|values| - 1] % 16 == 0)
      && (|x| % 3 == 2 ==> values[|values| - 1] % 4 == 0)
    decreases |x|
  {
    hide Letter, Values, EncodeFrom, Block;
    if |x| < 3 {
      ValuesOfRest(x, lineBreak, col);
    } else {
      var col' := ValuesOfFirst(x, lineBreak, col);
      LastLetter(x[3..], lineBreak, col');
      ValuesOfBlock(x[0], x[1], x[2]);
      LetterCount(|x|);
    }
  }

  lemma {:induction false} ZeroBits(i: nat)
    ensures LowBit(0, i) == 0
  {
    if i > 0 {
      ZeroBits(i - 1);
    }
  }

  lemma EndingInZeros(v: byte, n: nat, j: nat)
    requires n == 2 || n == 4
    requires v % (if n == 2 then 4 else 16) == 0 && 6 - n <= j < 6
    ensures BitOf(v, 6, j) == 0
  {
    SmallPowers();
    hide Pow2, LowBit;
    ZeroBits(5 - j);
    if n == 2 {
      JoinedBitsIn(v, v / 4, 0, 2, 4, 5 - j);
    } else {
      JoinedBitsIn(v, v / 16, 0, 4, 16, 5 - j);
    }
  }

  /** The letters' values are the bits of the input, with zeros behind its end, in as few letters as hold them. */
  lemma EncodedBits(x: seq<byte>, lineBreak: nat, col: nat, k: nat)
    ensures var values := Values(EncodeFrom(x, lineBreak, col));
      && |values| == (8 * |x| + 5) / 6
      && (k < 6 * |values| ==> Bit(values, 6, k) == Bit(x, 8, k))
  {
    hide DecodeFrom, BitOf, EncodeFrom, Values;
    var values := Values(EncodeFrom(x, lineBreak, col));
    LastLetter(x, lineBreak, col);
    if k < 8 * |x| {
      hide Bit;
      DecodeInvertsEncode(x, lineBreak, col, true);
      DecodedBits(EncodeFrom(x, lineBreak, col), true, k);
    } else if k < 6 * |values| {
      hide BitOf;
      TrailingBits(values, |x|, k);
      assert Bit(x, 8, k) == 0;
    }
  }

  lemma TrailingBits(values: seq<byte>, n: nat, k: nat)
    requires |values| == (8 * n + 5) / 6 && 8 * n <= k < 6 * |values|
    requires n % 3 == 1 ==> values[|values| - 1] % 16 == 0
    requires n % 3 == 2 ==> values[|values| - 1] % 4 == 0
    ensures Bit(values, 6, k) == 0
  {
    hide BitOf;
    assert k / 6 == |values| - 1;
    EndingInZeros(values[|values| - 1], if n % 3 == 1 then 4 else 2, k % 6);
  }

  // ----- What is written between and after the letters -----

  /** The unbroken encoding is letters and then the padding that completes the last block. */
  lemma {:induction false} EncodedShape(x: seq<byte>, col: nat) returns (letters: seq<byte>)
    ensures forall i :: 0 <= i < |letters| ==> IsLetter(letters[i])
    ensures |letters| == (8 * |x| + 5) / 6
    ensures EncodeFrom(x, 0, col) == letters + if |x| % 3 == 1 then [61, 61] else if |x| % 3 == 2 then [61] else []
    decreases |x|
  {
    hide EncodeFrom, Block, IsLetter;
    if |x| < 3 {
      letters := ShapeOfRest(x, col);
    } else {
      EncodeFirst(x, 0, col);
      LettersOfBlock(x[0], x[1], x[2]);
      LetterCount(|x|);
      var rest := EncodedShape(x[3..], col + 4);
      letters := Block(x[0], x[1], x[2]) + rest;
    }
  }

  lemma ShapeOfRest(x: seq<byte>, col: nat) returns (letters: seq<byte>)
    requires |x| < 3
    ensures forall i :: 0 <= i < |letters| ==> IsLetter(letters[i])
    ensures |letters| == (8 * |x| + 5) / 6
    ensures EncodeFrom(x, 0, col) == letters + if |x| == 1 then [61, 61] else if |x| == 2 then [61] else []
  {
    EncodeUnfold(x, 0, col);
    hide EncodeFrom, Letter, IsLetter;
    if |x| == 0 {
      letters := [];
    } else if |x| == 1 {
      EncodingTable(x[0] / 4);
      EncodingTable(x[0] % 4 * 16);
      letters := [Letter(x[0] / 4), Letter(x[0] % 4 * 16)];
    } else {
      EncodingTable(x[0] / 4);
      EncodingTable(x[0] % 4 * 16 + x[1] / 16);
      EncodingTable(x[1] % 16 * 4);
      letters := [Letter(x[0] / 4), Letter(x[0] % 4 * 16 + x[1] / 16), Letter(x[1] % 16 * 4)];
    }
  }

  lemma LettersOfBlock(a: byte, b: byte, c: byte)
    ensures |Block(a, b, c)| == 4
    ensures forall i :: 0 <= i < 4 ==> IsLetter(Block(a, b, c)[i])
  {
    SextetRange(a, b);
    SextetRange(b, c);
    hide IsLetter;
    EncodingTable(a / 4);
    EncodingTable(a % 4 * 16 + b / 16);
    EncodingTable(b % 16 * 4 + c / 64);
    EncodingTable(c % 64);
    hide Letter;
  }

  lemma SextetRange(a: byte, b: byte)
    ensures a / 4 < 64 && a % 4 * 16 + b / 16 < 64 && a % 16 * 4 + b / 64 < 64
  {
  }

  /** Nothing but letters, padding and newlines is written. */
  lemma {:induction false} EncodedCharacters(x: seq<byte>, lineBreak: nat, col: nat)
    ensures forall c :: c in EncodeFrom(x, lineBreak, col) ==> IsLetter(c) || c == 61 || c == 10
    decreases |x|
  {
    hide IsLetter, EncodeFrom, Block;
    if |x| < 3 {
      CharactersOfRest(x, lineBreak, col);
    } else {
      EncodeFirst(x, lineBreak, col);
      LettersOfBlock(x[0], x[1], x[2]);
      EncodedCharacters(x[3..], lineBreak, if lineBreak > 0 && col + 4 >= lineBreak then 0 else col + 4);
    }
  }

  /** The lines that are full when blocks follow col letters. */
  function FullLines(lineBreak: nat, col: nat, blocks: nat): nat {
    if lineBreak == 0 then 0 else (col / 4 + blocks) / ((lineBreak + 3) / 4)
  }

  /** The broken encoding is longer by one newline for every full line. */
  lemma {:induction false} EncodedLength(x: seq<byte>, lineBreak: nat, col: nat)
    requires col % 4 == 0 && (lineBreak > 0 ==> col < lineBreak)
    ensures |EncodeFrom(x, lineBreak, col)| == 4 * ((|x| + 2) / 3) + FullLines(lineBreak, col, |x| / 3)
    decreases |x|
  {
    hide EncodeFrom, Block, FullLines;
    if |x| < 3 {
      CharactersOfRest(x, lineBreak, col);
      NoFullLine(lineBreak, col);
    } else {
      EncodeFirst(x, lineBreak, col);
      BlockLength(x[0], x[1], x[2]);
      var more := lineBreak > 0 && col + 4 >= lineBreak;
      EncodedLength(x[3..], lineBreak, if more then 0 else col + 4);
      BlockCount(|x|);
      BlockFillsLine(lineBreak, col, |x| / 3);
    }
  }

  lemma NoFullLine(lineBreak: nat, col: nat)
    requires col % 4 == 0 && (lineBreak > 0 ==> col < lineBreak)
    ensures FullLines(lineBreak, col, 0) == 0
  {
    if lineBreak > 0 {
      DivModUnique(col / 4, (lineBreak + 3) / 4, 0, col / 4);
    }
  }

  lemma BlockFillsLine(lineBreak: nat, col: nat, blocks: nat)
    requires col % 4 == 0 && (lineBreak > 0 ==> col < lineBreak) && blocks > 0
    ensures FullLines(lineBreak, col, blocks) ==
      if lineBreak > 0 && col + 4 >= lineBreak then 1 + FullLines(lineBreak, 0, blocks - 1)
      else FullLines(lineBreak, col + 4, blocks - 1)
  {
    var m := (lineBreak + 3) / 4;
    if lineBreak > 0 && col + 4 >= lineBreak {
      assert m == col / 4 + 1;
      NatDivision(blocks - 1, m);
      DivModUnique(m + (blocks - 1), m, 1 + (blocks - 1) / m, (blocks - 1) % m);
    } else {
      assert (col + 4) / 4 == col / 4 + 1;
    }
  }

  lemma CharactersOfRest(x: seq<byte>, lineBreak: nat, col: nat)
    requires |x| < 3
    ensures forall i :: 0 <= i < |EncodeFrom(x, lineBreak, col)| ==>
      var c := EncodeFrom(x, lineBreak, col)[i]; IsLetter(c) || c == 61
    ensures |EncodeFrom(x, lineBreak, col)| == 4 * ((|x| + 2) / 3)
  {
    hide IsLetter;
    var letters := ShapeOfRest(x, col);
    RestIsUnbroken(x, lineBreak, col);
    hide EncodeFrom;
  }

  lemma BlockCount(n: nat)
    requires n >= 3
    ensures (n + 2) / 3 == 1 + (n - 3 + 2) / 3 && n / 3 == 1 + (n - 3) / 3
  {
  }

  lemma RestIsUnbroken(x: seq<byte>, lineBreak: nat, col: nat)
    requires |x| < 3
    ensures EncodeFrom(x, lineBreak, col) == EncodeFrom(x, 0, col)
  {
  }
}
