/** UTF-8 as section 3 of RFC 3629 defines it, and the two recognisers the repository carries:
    `readUTF8Sequence` (unbounded, decodes) and `readAUtf8Sequence` (bounded, only measures).
    Bytes are integers; `MaskTests` shows that the range tests used here are the C++ mask tests. */
module Utf8 {
  import opened Options

  type Byte = b: int | 0 <= b < 0x100
  type CodePoint = c: int | 0 <= c <= 0x10FFFF

  const UINT32_RANGE := 0x1_0000_0000
  const INVALID_CHAR := 0xFFFF_FFFF // `return -1` through char32_t

  // ---- The format ----

  predicate Continuation(b: Byte) {
    0x80 <= b < 0xC0
  }

  // Length announced by a first byte, 0 when no sequence starts with it.
  function LeadLength(b: Byte): nat {
    if b < 0x80 then 1
    else if 0xC0 <= b < 0xE0 then 2
    else if 0xE0 <= b < 0xF0 then 3
    else if 0xF0 <= b < 0xF8 then 4
    else 0
  }

  lemma MaskRanges(b: bv8)
    ensures b & 0x80 == 0 <==> b < 0x80
    ensures b & 0xC0 == 0x80 <==> 0x80 <= b < 0xC0
    ensures b & 0xE0 == 0xC0 <==> 0xC0 <= b < 0xE0
    ensures b & 0xF0 == 0xE0 <==> 0xE0 <= b < 0xF0
    ensures b & 0xF8 == 0xF0 <==> 0xF0 <= b < 0xF8
  {
  }

  /** The mask tests of the C++ code are the tests used here, on all 256 bytes. */
  lemma MaskTests(b: bv8)
    ensures LeadLength(b as int) == 1 <==> b & 0x80 == 0
    ensures LeadLength(b as int) == 2 <==> b & 0xE0 == 0xC0
    ensures LeadLength(b as int) == 3 <==> b & 0xF0 == 0xE0
    ensures LeadLength(b as int) == 4 <==> b & 0xF8 == 0xF0
    ensures Continuation(b as int) <==> b & 0xC0 == 0x80
  {
    MaskRanges(b);
  }

  /** Length of the sequence of the right shape that `s` starts with, 0 when there is none. Shape is
      all the C++ code looks at: overlong forms and surrogates have it too. */
  function Shape(s: seq<Byte>): (n: nat)
    ensures n <= 4 && n <= |s|
  {
    if s == [] then 0
    else
      var n := LeadLength(s[0]);
      if && n <= |s|
         && (n >= 2 ==> Continuation(s[1]))
         && (n >= 3 ==> Continuation(s[2]))
         && (n == 4 ==> Continuation(s[3])) then n else 0
  }

  // The six bits of a continuation byte.
  function Low(b: Byte): int {
    b as int - 0x80
  }

  // The bits a sequence of the right shape carries.
  function Payload(s: seq<Byte>): (v: int)
    requires Shape(s) > 0
    ensures 0 <= v < 0x20_0000
  {
    var n, lead: int := Shape(s), s[0];
    if n == 1 then lead
    else if n == 2 then 0x40 * (lead - 0xC0) + Low(s[1])
    else if n == 3 then 0x1000 * (lead - 0xE0) + 0x40 * Low(s[1]) + Low(s[2])
    else 0x4_0000 * (lead - 0xF0) + 0x1000 * Low(s[1]) + 0x40 * Low(s[2]) + Low(s[3])
  }

  function Encode(c: CodePoint): (s: seq<Byte>)
    ensures 1 <= |s| <= 4
  {
    if c < 0x80 then [c]
    else if c < 0x800 then [0xC0 + c / 0x40, 0x80 + c % 0x40]
    else if c < 0x1_0000 then [0xE0 + c / 0x1000, 0x80 + c / 0x40 % 0x40, 0x80 + c % 0x40]
    else [0xF0 + c / 0x4_0000, 0x80 + c / 0x1000 % 0x40, 0x80 + c / 0x40 % 0x40, 0x80 + c % 0x40]
  }

  function EncodeAll(cs: seq<CodePoint>): seq<Byte> {
    if cs == [] then [] else Encode(cs[0]) + EncodeAll(cs[1..])
  }

  /** Decoding by shape alone, the way repeated `readUTF8Sequence` does it. */
  function DecodeAll(s: seq<Byte>): (r: Option<seq<int>>) {
    if s == [] then Some([])
    else if Shape(s) == 0 then None
    else
      match DecodeAll(s[Shape(s)..])
      case None => None
      case Some(vs) => Some([Payload(s)] + vs)
  }

  // ---- The two recognisers ----

  /** The bytes `readUTF8Sequence` looks at: it stops looking as soon as a test succeeds. */
  predicate Readable(mem: seq<Byte>, pos: nat) {
    && pos < |mem|
    && (mem[pos] >= 0x80 ==>
          && pos + 1 < |mem|
          && (!(LeadLength(mem[pos]) == 2 && Continuation(mem[pos + 1])) ==>
                && pos + 2 < |mem|
                && (!(LeadLength(mem[pos]) == 3 && Continuation(mem[pos + 1]) && Continuation(mem[pos + 2])) ==>
                      pos + 3 < |mem|)))
  }

  // One `ch += *sequence++` of the fall-through switch, modulo 2^32.
  function Add(ch: int, b: Byte): (r: int)
    requires 0 <= ch < UINT32_RANGE
    ensures ch < 0x1000_0000 ==> r == ch + b
  {
    (ch + b) % UINT32_RANGE
  }

  // `ch <<= 6`, modulo 2^32.
  function Shift(ch: int): (r: int)
    requires 0 <= ch < UINT32_RANGE
    ensures ch < 0x100_0000 ==> r == 0x40 * ch
  {
    ch * 0x40 % UINT32_RANGE
  }

  /** The fall-through switch at the end of `readUTF8Sequence`: bytes are accumulated with their marker
      bits, which one subtraction then removes. No step leaves 32 bits, so what remains is the payload. */
  method Accumulate(mem: seq<Byte>, pos: nat, length: int) returns (ch: int, next: nat)
    requires pos <= |mem| && Shape(mem[pos..]) == length > 0
    ensures ch == Payload(mem[pos..]) && next == pos + length
  {
    ghost var s := mem[pos..];
    ch, next := 0, pos;
    if length >= 4 {
      OneByteMore(s, length - 4);
      ch := Shift(Add(ch, mem[next]));
      next := next + 1;
    }
    if length >= 3 {
      OneByteMore(s, length - 3);
      ch := Shift(Add(ch, mem[next]));
      next := next + 1;
    }
    if length >= 2 {
      OneByteMore(s, length - 2);
      ch := Shift(Add(ch, mem[next]));
      next := next + 1;
    }
    assert ch == MarkedSum(s, length - 1) && next == pos + length - 1;
    LastByte(s);
    ch := Add(ch, mem[next]);
    next := next + 1;
    var offset := OFFSETS_FROM_UTF8[length - 1];
    ch := (ch - offset) % UINT32_RANGE;
  }

  // One `ch += *sequence++; ch <<= 6` after `n` of them.
  lemma OneByteMore(s: seq<Byte>, n: nat)
    requires n < |s| && n <= 2
    ensures Shift(Add(MarkedSum(s, n), s[n])) == MarkedSum(s, n + 1)
  {
  }

  const OFFSETS_FROM_UTF8: seq<int> := [0x0000_0000, 0x0000_3080, 0x000E_2080, 0x03C8_2080]

  // What accumulating the first `n` bytes, each followed by a shift, amounts to without wrap-around.
  ghost function MarkedSum(s: seq<Byte>, n: int): (r: nat)
    requires n <= |s| && n <= 3
    ensures r < if n <= 0 then 1 else if n == 1 then 0x4000 else if n == 2 then 0x11_0000 else 0x4400_0000
  {
    if n <= 0 then 0 else 0x40 * (MarkedSum(s, n - 1) + s[n - 1])
  }

  lemma MarkersAreTheOffset(s: seq<Byte>)
    requires Shape(s) > 0
    ensures var n := Shape(s); MarkedSum(s, n - 1) < 0x1000_0000
    ensures var n := Shape(s); MarkedSum(s, n - 1) + s[n - 1] - OFFSETS_FROM_UTF8[n - 1] == Payload(s)
  {
    var n := Shape(s);
    assert MarkedSum(s, 1) == 0x40 * s[0] as int;
    if n > 2 {
      assert MarkedSum(s, 2) == 0x40 * (MarkedSum(s, 1) + s[1]);
      if n > 3 {
        assert MarkedSum(s, 3) == 0x40 * (MarkedSum(s, 2) + s[2]);
      }
    }
  }

  lemma LastByte(s: seq<Byte>)
    requires Shape(s) > 0
    ensures var n := Shape(s);
            (Add(MarkedSum(s, n - 1), s[n - 1]) - OFFSETS_FROM_UTF8[n - 1]) % UINT32_RANGE == Payload(s)
  {
    MarkersAreTheOffset(s);
  }

  /** `readUTF8Sequence`. The pointer is the index `pos`, returned as `next`; `charlen` is the caller's
      variable, which an invalid sequence leaves alone; `ch` is a char32_t, so every step is taken
      modulo 2^32. The contract speaks of the payload bits, not of the subtracted constant. */
  method ReadUTF8Sequence(mem: seq<Byte>, pos: nat, charlen0: int)
    returns (ch: int, valid: bool, charlen: int, next: nat)
    requires Readable(mem, pos)
    ensures valid <==> Shape(mem[pos..]) > 0
    ensures valid ==> ch == Payload(mem[pos..]) && charlen == Shape(mem[pos..]) && next == pos + charlen
    ensures !valid ==> ch == INVALID_CHAR && charlen == charlen0 && next == pos + 1
  {
    var sch := mem[pos];
    var length: int;
    valid, charlen, next := true, charlen0, pos;
    ghost var s := mem[pos..];
    if sch < 0x80 {
      length := 1;
    } else {
      var ch2 := mem[pos + 1];
      if LeadLength(sch) == 2 && Continuation(ch2) {
        length := 2;
      } else {
        var ch3 := mem[pos + 2];
        if LeadLength(sch) == 3 && Continuation(ch2) && Continuation(ch3) {
          length := 3;
        } else {
          var ch4 := mem[pos + 3];
          if LeadLength(sch) == 4 && Continuation(ch2) && Continuation(ch3) && Continuation(ch4) {
            length := 4;
          } else {
            valid, next := false, next + 1;
            return INVALID_CHAR, valid, charlen, next;
          }
        }
      }
    }
    charlen := length;
    ch, next := Accumulate(mem, pos, length);
  }

  /** `readAUtf8Sequence`: the same question about the bytes in `source[start..end]` only. */
  method ReadAUtf8Sequence(source: seq<Byte>, start: nat, end: nat) returns (length: int)
    requires start < end <= |source|
    ensures length == if Shape(source[start..end]) > 0 then Shape(source[start..end]) else -1
  {
    ghost var s := source[start..end];
    var byte1 := source[start];
    if byte1 < 0x80 {
      return 1;
    }
    var byte2, byte3, byte4: Byte := 0, 0, 0;
    var i := 1;
    while i < 4 && start + i < end
      invariant 1 <= i <= 4 && start + i <= end
      invariant i > 1 ==> byte2 == s[1]
      invariant i > 2 ==> byte3 == s[2]
      invariant Shape(s) == 0 || Shape(s) > i
    {
      if i == 1 {
        byte2 := source[start + 1];
        if LeadLength(byte1) == 2 && Continuation(byte2) {
          return 2;
        }
      } else if i == 2 {
        byte3 := source[start + 2];
        if LeadLength(byte1) == 3 && Continuation(byte2) && Continuation(byte3) {
          return 3;
        }
      } else if i == 3 {
        byte4 := source[start + 3];
        if LeadLength(byte1) == 4 && Continuation(byte2) && Continuation(byte3) && Continuation(byte4) {
          return 4;
        }
      }
      i := i + 1;
    }
    return -1;
  }

  /** The bounded recogniser is the unbounded one restricted to sequences that end in time: what lies
      past the bound can only turn a refusal into an acceptance that reaches past the bound. */
  lemma BoundedAgreesWithUnbounded(s: seq<Byte>, beyond: seq<Byte>)
    ensures Shape(s) == if Shape(s + beyond) <= |s| then Shape(s + beyond) else 0
    ensures Shape(s) > 0 ==> Payload(s) == Payload(s + beyond)
  {
    if s != [] {
      assert (s + beyond)[0] == s[0];
    } else {
      assert s + beyond == beyond;
    }
  }

  // ---- Encoding and decoding undo each other ----

  // Base 64 digits of a code point.
  lemma Digits(c: nat)
    ensures c == 0x40 * (c / 0x40) + c % 0x40
    ensures c == 0x1000 * (c / 0x1000) + 0x40 * (c / 0x40 % 0x40) + c % 0x40
    ensures c == 0x4_0000 * (c / 0x4_0000) + 0x1000 * (c / 0x1000 % 0x40) + 0x40 * (c / 0x40 % 0x40) + c % 0x40
  {
    var d := c / 0x40;
    var e := d / 0x40;
    assert c / 0x1000 == e;
    assert c / 0x4_0000 == e / 0x40;
  }

  lemma EncodedShape(c: CodePoint, rest: seq<Byte>)
    ensures Shape(Encode(c) + rest) == |Encode(c)|
    ensures Payload(Encode(c) + rest) == c
  {
    var e := Encode(c);
    assert LeadLength(e[0]) == |e|;
    assert Shape(e + rest) == |e|;
    Digits(c);
  }

  // The digits determine the number, hence the encoding.
  lemma DigitsUnique(c: nat, w: nat, x: nat, y: nat, z: nat)
    requires x < 0x40 && y < 0x40 && z < 0x40
    requires c == 0x4_0000 * w + 0x1000 * x + 0x40 * y + z
    ensures c % 0x40 == z && c / 0x40 % 0x40 == y && c / 0x1000 % 0x40 == x && c / 0x4_0000 == w
    ensures c / 0x1000 == 0x40 * w + x && c / 0x40 == 0x1000 * w + 0x40 * x + y
  {
    var d := 0x1000 * w + 0x40 * x + y;
    assert c / 0x40 == d && c % 0x40 == z;
    var e := 0x40 * w + x;
    assert d / 0x40 == e && d % 0x40 == y;
    assert c / 0x1000 == e;
  }

  /** A sequence of the right shape is the encoding of its payload exactly when it is not overlong and
      does not exceed U+10FFFF; these are the inputs the C++ recognisers accept beyond RFC 3629,
      together with encoded surrogates. */
  lemma ShapeIsEncodingIff(s: seq<Byte>)
    requires Shape(s) > 0
    ensures Payload(s) <= 0x10FFFF && Encode(Payload(s)) == s[..Shape(s)] <==>
            [0, 0x80, 0x800, 0x1_0000][Shape(s) - 1] <= Payload(s) <= 0x10FFFF
  {
    var n, v, lead: int := Shape(s), Payload(s), s[0];
    if n == 2 {
      DigitsUnique(v, 0, 0, lead - 0xC0, Low(s[1]));
    } else if n == 3 {
      DigitsUnique(v, 0, lead - 0xE0, Low(s[1]), Low(s[2]));
    } else if n == 4 {
      DigitsUnique(v, lead - 0xF0, Low(s[1]), Low(s[2]), Low(s[3]));
    }
    if [0, 0x80, 0x800, 0x1_0000][n - 1] <= v <= 0x10FFFF {
      assert |Encode(v)| == n;
    } else if v <= 0x10FFFF {
      assert |Encode(v)| != n;
    }
  }

  lemma {:induction false} EncodeAllConcat(a: seq<CodePoint>, b: seq<CodePoint>)
    ensures EncodeAll(a + b) == EncodeAll(a) + EncodeAll(b)
  {
    if a == [] {
      assert a + b == b;
    } else {
      assert (a + b)[1..] == a[1..] + b;
      EncodeAllConcat(a[1..], b);
    }
  }

  lemma Associate<T>(a: seq<T>, b: seq<T>, c: seq<T>)
    ensures (a + b) + c == a + (b + c)
  {
  }

  lemma DecodeUndoesOne(c: CodePoint, tail: seq<Byte>)
    ensures DecodeAll(Encode(c) + tail) == match DecodeAll(tail) case None => None case Some(vs) => Some([c] + vs)
  {
    EncodedShape(c, tail);
    assert (Encode(c) + tail)[|Encode(c)|..] == tail;
  }

  /** Decoding what was encoded gives the code points back, and in front of any `rest` it leaves exactly
      `rest` to decode. */
  lemma {:induction false} DecodeUndoesEncode(cs: seq<CodePoint>, rest: seq<Byte>)
    ensures DecodeAll(EncodeAll(cs) + rest) ==
            match DecodeAll(rest) case None => None case Some(vs) => Some(cs + vs)
  {
    if cs == [] {
      assert EncodeAll(cs) + rest == rest;
      match DecodeAll(rest) case None => case Some(vs) => assert cs + vs == vs;
    } else {
      var e, tail := Encode(cs[0]), EncodeAll(cs[1..]);
      Associate(e, tail, rest);
      DecodeUndoesOne(cs[0], tail + rest);
      DecodeUndoesEncode(cs[1..], rest);
      match DecodeAll(rest)
      case None =>
      case Some(vs) =>
        assert [cs[0]] + cs[1..] == cs;
        Associate<int>([cs[0]], cs[1..], vs);
    }
  }

  lemma EncodeInjective(a: seq<CodePoint>, b: seq<CodePoint>)
    requires EncodeAll(a) == EncodeAll(b)
    ensures a == b
  {
    DecodeUndoesEncode(a, []);
    DecodeUndoesEncode(b, []);
    assert EncodeAll(a) + [] == EncodeAll(a) && EncodeAll(b) + [] == EncodeAll(b);
    assert a + [] == a && b + [] == b;
  }
}
