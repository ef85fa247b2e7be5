/** `v8::String` of src/api-data.cc: UTF-8 length and bounded UTF-8 and UTF-16 output.
    The engine's `toStdUTF8String` is modelled as section 3 of RFC 3629 applied to the code points of
    the UTF-16 code units: surrogate pairs are joined, a lone surrogate is encoded as it stands, or as
    U+FFFD when REPLACE_INVALID_UTF8 is asked for. */
module V8String {
  import opened Options
  import opened Utf8

  type CodeUnit = u: int | 0 <= u < 0x1_0000

  // String::kMaxLength with 64-bit pointers.
  const MAX_LENGTH := 0x1FFF_FFE8

  // The two bits of v8::String::WriteOptions that matter here.
  datatype WriteOptions = WriteOptions(noNullTermination: bool, replaceInvalidUtf8: bool)

  const NO_OPTIONS := WriteOptions(false, false)

  /** What `stringBufferAccessData` shows of an engine string. The same characters may be held in either
      width. */
  datatype EsString = EsString(units: seq<CodeUnit>, has8BitContent: bool) {
    predicate Valid() {
      && |units| <= MAX_LENGTH
      && (has8BitContent ==> forall i | 0 <= i < |units| :: units[i] < 0x100)
    }
  }

  // ---- UTF-16 ----

  predicate High(u: CodeUnit) { 0xD800 <= u < 0xDC00 }

  predicate Low10(u: CodeUnit) { 0xDC00 <= u < 0xE000 }

  predicate PairAt(u: seq<CodeUnit>) { |u| >= 2 && High(u[0]) && Low10(u[1]) }

  function Lone(u: CodeUnit, replace: bool): CodePoint {
    if replace && (High(u) || Low10(u)) then 0xFFFD else u
  }

  function Join(high: CodeUnit, low: CodeUnit): (c: CodePoint)
    requires High(high) && Low10(low)
    ensures c >= 0x1_0000
  {
    var h: int := high - 0xD800;
    0x1_0000 + 0x400 * h + (low - 0xDC00)
  }

  function CodePoints(u: seq<CodeUnit>, replace: bool): (cs: seq<CodePoint>)
    ensures |cs| <= |u|
  {
    if u == [] then []
    else if PairAt(u) then
      [Join(u[0], u[1])] + CodePoints(u[2..], replace)
    else [Lone(u[0], replace)] + CodePoints(u[1..], replace)
  }

  function ToUtf16(cs: seq<CodePoint>): seq<CodeUnit> {
    if cs == [] then []
    else if cs[0] < 0x1_0000 then [cs[0]] + ToUtf16(cs[1..])
    else [0xD800 + (cs[0] - 0x1_0000) / 0x400, 0xDC00 + (cs[0] - 0x1_0000) % 0x400] + ToUtf16(cs[1..])
  }

  /** Taking code points loses nothing: without replacement the code units come back. */
  lemma {:induction false} CodePointsKeepUnits(u: seq<CodeUnit>)
    ensures ToUtf16(CodePoints(u, false)) == u
  {
    if u == [] {
    } else if PairAt(u) {
      CodePointsKeepUnits(u[2..]);
      assert CodePoints(u, false)[1..] == CodePoints(u[2..], false);
      assert u == [u[0], u[1]] + u[2..];
    } else {
      CodePointsKeepUnits(u[1..]);
      assert CodePoints(u, false)[1..] == CodePoints(u[1..], false);
      assert u == [u[0]] + u[1..];
    }
  }

  predicate Surrogate(c: CodePoint) {
    0xD800 <= c < 0xE000
  }

  lemma JoinUndoesSplit(c: CodePoint)
    requires c >= 0x1_0000
    ensures var u := ToUtf16([c]);
            |u| == 2 && PairAt(u) && Join(u[0], u[1]) == c
  {
    var d: int := c - 0x1_0000;
    assert d == 0x400 * (d / 0x400) + d % 0x400;
    assert ToUtf16([c][1..]) == [];
  }

  /** And for text without surrogates the other way round: exactly the pairs are joined. */
  lemma {:induction false} UnitsKeepCodePoints(cs: seq<CodePoint>, replace: bool)
    requires forall c | c in cs :: !Surrogate(c)
    ensures CodePoints(ToUtf16(cs), replace) == cs
  {
    if cs != [] {
      var u, rest := ToUtf16(cs), ToUtf16(cs[1..]);
      UnitsKeepCodePoints(cs[1..], replace);
      assert cs == [cs[0]] + cs[1..] && cs[0] in cs;
      if cs[0] < 0x1_0000 {
        assert u[1..] == rest && u[0] == cs[0];
      } else {
        JoinUndoesSplit(cs[0]);
        assert ToUtf16([cs[0]][1..]) == [];
        assert u[2..] == rest && u[..2] == ToUtf16([cs[0]]);
      }
    }
  }

  /** Replacing changes the lone surrogates to U+FFFD and nothing else. */
  lemma {:induction false} OnlyLoneSurrogatesAreReplaced(u: seq<CodeUnit>, k: nat)
    requires k < |CodePoints(u, false)|
    ensures |CodePoints(u, true)| == |CodePoints(u, false)|
    ensures var c := CodePoints(u, false)[k];
            CodePoints(u, true)[k] == if Surrogate(c) then 0xFFFD else c
    decreases |u|
  {
    var n := if PairAt(u) then 2 else 1;
    SameNumberOfCodePoints(u);
    if k > 0 {
      OnlyLoneSurrogatesAreReplaced(u[n..], k - 1);
    }
  }

  lemma {:induction false} SameNumberOfCodePoints(u: seq<CodeUnit>)
    ensures |CodePoints(u, true)| == |CodePoints(u, false)|
  {
    if u != [] {
      SameNumberOfCodePoints(u[if PairAt(u) then 2 else 1..]);
    }
  }

  function ToStdUTF8String(u: seq<CodeUnit>, replace: bool): seq<Byte> {
    EncodeAll(CodePoints(u, replace))
  }

  /** `byteLength` is an int: three bytes a code unit at most, so no string overflows it. Replacing lone
      surrogates does not change the length. */
  lemma {:induction false} EncodedLength(u: seq<CodeUnit>, replace: bool)
    ensures |u| <= |ToStdUTF8String(u, replace)| <= 3 * |u|
    ensures |ToStdUTF8String(u, replace)| == |ToStdUTF8String(u, false)|
    ensures |u| <= MAX_LENGTH ==> |ToStdUTF8String(u, replace)| < 0x8000_0000
  {
    if u != [] {
      var k := if PairAt(u) then 2 else 1;
      assert CodePoints(u, replace)[1..] == CodePoints(u[k..], replace);
      assert CodePoints(u, false)[1..] == CodePoints(u[k..], false);
      EncodedLength(u[k..], replace);
    }
  }

  // ---- ASCII ----

  predicate Ascii(u: seq<CodeUnit>) {
    forall i | 0 <= i < |u| :: u[i] < 0x80
  }

  /** `StringRefHelper::isAsciiString`. */
  method IsAsciiString(str: EsString) returns (isAscii: bool)
    ensures isAscii <==> str.has8BitContent && Ascii(str.units)
  {
    if !str.has8BitContent {
      return false;
    }
    isAscii := true;
    var i := 0;
    while i < |str.units|
      invariant 0 <= i <= |str.units| && isAscii
      invariant Ascii(str.units[..i])
    {
      if str.units[i] > 127 {
        isAscii := false;
        break;
      }
      i := i + 1;
    }
  }

  lemma {:induction false} AsciiIsItsEncoding(u: seq<CodeUnit>, replace: bool)
    requires Ascii(u)
    ensures CodePoints(u, replace) == u && ToStdUTF8String(u, replace) == u
  {
    if u != [] {
      AsciiIsItsEncoding(u[1..], replace);
      assert CodePoints(u, replace)[1..] == u[1..];
      assert u == [u[0]] + u[1..];
    }
  }

  lemma AsciiPrefixesFit(u: seq<CodeUnit>, capacity: nat)
    requires Ascii(u)
    ensures var k := Min(capacity, |u|);
            LongestFit(u, capacity, k) && EncodeAll(u[..k]) == u[..k] && EncodeAll(u) == u
  {
    var k := Min(capacity, |u|);
    AsciiIsItsEncoding(u, false);
    AsciiIsItsEncoding(u[..k], false);
    if k < |u| {
      AsciiIsItsEncoding(u[..k + 1], false);
    }
  }

  /** `String::Utf8Length`. */
  method Utf8Length(str: EsString) returns (length: int)
    requires str.Valid()
    ensures length == |ToStdUTF8String(str.units, false)|
  {
    var ascii := IsAsciiString(str);
    if ascii {
      AsciiIsItsEncoding(str.units, false);
      length := |str.units|;
    } else {
      length := |ToStdUTF8String(str.units, false)|;
    }
  }

  // ---- Bounded copying of whole sequences ----

  // How many whole sequences `source` starts with, and how many bytes they take.
  function WholeSequences(source: seq<Byte>): (r: (nat, nat))
    ensures r.1 <= |source|
  {
    if Shape(source) == 0 then (0, 0)
    else
      var rest := WholeSequences(source[Shape(source)..]);
      (1 + rest.0, Shape(source) + rest.1)
  }

  /** A buffer that held `was` starts with `text` now and is otherwise as it was. */
  predicate Overwritten<T(==)>(now: seq<T>, text: seq<T>, was: seq<T>) {
    |text| <= |was| && now == text + was[|text|..]
  }

  lemma OverwriteOneMore<T>(now: seq<T>, text: seq<T>, was: seq<T>, x: T)
    requires Overwritten(now, text, was) && |text| < |was|
    ensures Overwritten(now[|text| := x], text + [x], was)
  {
  }

  lemma OverwrittenFurther<T>(now: seq<T>, source: seq<T>, i: nat, n: nat, was: seq<T>)
    requires i + n <= |source| && i + n <= |was| && Overwritten(now, source[..i], was)
    ensures Overwritten(now[..i] + source[i..i + n] + now[i + n..], source[..i + n], was)
  {
    assert source[..i] + source[i..i + n] == source[..i + n];
  }

  // `dest[at] = x`, right after what was written.
  method StoreNext<T>(dest: array<T>, at: nat, x: T, ghost text: seq<T>, ghost was: seq<T>)
    requires at == |text| < dest.Length && Overwritten(dest[..], text, was)
    modifies dest
    ensures Overwritten(dest[..], text + [x], was)
  {
    OverwriteOneMore(dest[..], text, was, x);
    ghost var now := dest[..];
    dest[at] := x;
    assert dest[..] == now[at := x];
  }

  // Of `whole`, `n` sequences of `b` bytes are dealt with and `rest` is left.
  ghost predicate CopiedSoFar(whole: (nat, nat), rest: seq<Byte>, n: nat, b: nat) {
    whole == (n + WholeSequences(rest).0, b + WholeSequences(rest).1)
  }

  lemma CopiedOneMore(whole: (nat, nat), rest: seq<Byte>, n: nat, b: nat)
    requires CopiedSoFar(whole, rest, n, b)
    ensures Shape(rest) > 0 ==> CopiedSoFar(whole, rest[Shape(rest)..], n + 1, b + Shape(rest))
    ensures Shape(rest) == 0 ==> whole == (n, b)
  {
  }

  // `memcpy(dest + at, source + from, n)`.
  method MemCpy<T>(dest: array<T>, at: nat, source: seq<T>, from: nat, n: nat)
    requires at + n <= dest.Length && from + n <= |source|
    modifies dest
    ensures dest[..] == old(dest[..])[..at] + source[from..from + n] + old(dest[..])[at + n..]
  {
    forall k | 0 <= k < n {
      dest[at + k] := source[from + k];
    }
  }

  // `memcpy(dest, source + from, n)`.
  method MemCpyToFront<T>(dest: array<T>, source: seq<T>, from: nat, n: nat)
    requires n <= dest.Length && from + n <= |source|
    modifies dest
    ensures Overwritten(dest[..], source[from..from + n], old(dest[..]))
  {
    MemCpy(dest, 0, source, from, n);
  }

  /** `copyUtf8Sequences`. The counters are the caller's and are added to. */
  method CopyUtf8Sequences(dest: array<Byte>, source: seq<Byte>, maxBytes: nat, nchars0: nat, nbytes0: nat)
    returns (nchars: nat, nbytes: nat)
    requires maxBytes <= |source| && maxBytes <= dest.Length
    modifies dest
    ensures var (n, b) := WholeSequences(source[..maxBytes]);
            && nchars == nchars0 + n && nbytes == nbytes0 + b
            && Overwritten(dest[..], source[..b], old(dest[..]))
  {
    nchars, nbytes := nchars0, nbytes0;
    var s, d, i := 0, 0, 0;
    ghost var whole := WholeSequences(source[..maxBytes]);
    ghost var rest, n := source[..maxBytes], 0;
    while i < maxBytes
      invariant s == d == i <= maxBytes && nbytes == nbytes0 + i && nchars == nchars0 + n
      invariant rest == source[i..maxBytes]
      invariant CopiedSoFar(whole, rest, n, i)
      invariant Overwritten(dest[..], source[..i], old(dest[..]))
    {
      var utf8CharLength := ReadAUtf8Sequence(source, s, maxBytes);
      CopiedOneMore(whole, rest, n, i);
      if utf8CharLength > 0 {
        rest, n := rest[utf8CharLength..], n + 1;
        OverwrittenFurther(dest[..], source, i, utf8CharLength, old(dest[..]));
        MemCpy(dest, d, source, s, utf8CharLength);
        s := s + utf8CharLength;
        d := d + utf8CharLength;
        nchars := nchars + 1;
        nbytes := nbytes + utf8CharLength;
        i := i + utf8CharLength;
      } else {
        break;
      }
    }
  }

  // ---- WriteUtf8 ----

  /** `k` code points fit into `capacity` bytes and one more does not. */
  predicate LongestFit(cs: seq<CodePoint>, capacity: int, k: nat) {
    && k <= |cs|
    && |EncodeAll(cs[..k])| <= capacity
    && (k < |cs| ==> |EncodeAll(cs[..k + 1])| > capacity)
  }

  lemma EncodeAllSplit(cs: seq<CodePoint>, k: nat)
    requires k <= |cs|
    ensures EncodeAll(cs) == EncodeAll(cs[..k]) + EncodeAll(cs[k..])
  {
    assert cs == cs[..k] + cs[k..];
    EncodeAllConcat(cs[..k], cs[k..]);
  }

  lemma EncodeAllStep(cs: seq<CodePoint>, k: nat)
    requires k < |cs|
    ensures EncodeAll(cs[..k + 1]) == EncodeAll(cs[..k]) + Encode(cs[k])
  {
    EncodeAllConcat(cs[..k], [cs[k]]);
    assert cs[..k + 1] == cs[..k] + [cs[k]];
    assert EncodeAll([cs[k]]) == Encode(cs[k]);
  }

  lemma FirstSequence(c: CodePoint, tail: seq<Byte>, bound: nat)
    requires bound <= |Encode(c) + tail|
    ensures var e, s := Encode(c), (Encode(c) + tail)[..bound];
            if |e| <= bound then Shape(s) == |e| && s[|e|..] == tail[..bound - |e|] else Shape(s) == 0
  {
    var s := Encode(c) + tail;
    EncodedShape(c, tail);
    BoundedAgreesWithUnbounded(s[..bound], s[bound..]);
    assert s == s[..bound] + s[bound..];
    if |Encode(c)| <= bound {
      assert s[..bound][|Encode(c)|..] == s[|Encode(c)|..][..bound - |Encode(c)|];
      assert s[|Encode(c)|..] == tail;
    }
  }

  /** Stopping at the first sequence cut by the bound copies the longest prefix of whole code points. */
  lemma {:induction false} WholeSequencesFit(cs: seq<CodePoint>, bound: nat)
    requires bound <= |EncodeAll(cs)|
    ensures var (n, b) := WholeSequences(EncodeAll(cs)[..bound]);
            LongestFit(cs, bound, n) && b == |EncodeAll(cs[..n])|
  {
    var s := EncodeAll(cs);
    if cs != [] {
      var e, tail := Encode(cs[0]), EncodeAll(cs[1..]);
      FirstSequence(cs[0], tail, bound);
      assert EncodeAll(cs[..1]) == e;
      if |e| <= bound {
        WholeSequencesFit(cs[1..], bound - |e|);
        var n := WholeSequences(tail[..bound - |e|]).0;
        assert cs[..n + 1][1..] == cs[1..][..n];
        if n + 1 < |cs| {
          assert cs[..n + 2][1..] == cs[1..][..n + 1];
        }
      }
    }
  }

  lemma FitWithinWhole(cs: seq<CodePoint>, capacity: nat, k: nat)
    requires LongestFit(cs, Min(capacity, |EncodeAll(cs)|), k)
    ensures LongestFit(cs, capacity, k)
    ensures |EncodeAll(cs[..k])| == |EncodeAll(cs)| <==> k == |cs|
  {
    EncodeAllSplit(cs, k);
    if k < |cs| {
      EncodeAllSplit(cs, k + 1);
      assert EncodeAll(cs[k..]) == Encode(cs[k]) + EncodeAll(cs[k..][1..]);
    } else {
      assert cs[..k] == cs;
    }
  }

  // The general path: bound the encoding by capacity and length, then copy whole sequences.
  lemma WholeSequencesAreLongestFit(cs: seq<CodePoint>, capacity: nat)
    ensures var s := EncodeAll(cs);
            var (n, b) := WholeSequences(s[..Min(capacity, |s|)]);
            && LongestFit(cs, capacity, n)
            && (b == |s| <==> n == |cs|)
            && s[..b] == EncodeAll(cs[..n])
  {
    var s := EncodeAll(cs);
    WholeSequencesFit(cs, Min(capacity, |s|));
    var n := WholeSequences(s[..Min(capacity, |s|)]).0;
    FitWithinWhole(cs, capacity, n);
    EncodeAllSplit(cs, n);
  }

  function BufferCapacity(capacity: int): nat {
    if capacity >= 0 then capacity else MAX_LENGTH
  }

  function Min(a: nat, b: nat): nat {
    if a < b then a else b
  }

  /** Whether `WriteUtf8` ends with a NUL: the whole string was written, room remains and the caller did
      not refuse it. */
  predicate EndsWithNul(cs: seq<CodePoint>, options: WriteOptions, capacity: nat, nchars: nat) {
    !options.noNullTermination && nchars == |cs| && |EncodeAll(cs)| < capacity
  }

  // Everything written: the text and the NUL.
  function Output(cs: seq<CodePoint>, options: WriteOptions, capacity: nat, nchars: nat): seq<Byte>
    requires nchars <= |cs|
  {
    var text := EncodeAll(cs[..nchars]);
    if EndsWithNul(cs, options, capacity, nchars) then text + [0] else text
  }

  /** What either path leaves behind: the longest fitting prefix, its size, and the total size. */
  predicate TextWritten(cs: seq<CodePoint>, capacity: nat, nchars: nat, nbytes: nat, byteLength: nat,
                        now: seq<Byte>, was: seq<Byte>)
  {
    && LongestFit(cs, capacity, nchars)
    && byteLength == |EncodeAll(cs)|
    && nbytes == |EncodeAll(cs[..nchars])|
    && (nbytes == byteLength <==> nchars == |cs|)
    && Overwritten(now, EncodeAll(cs[..nchars]), was)
  }

  /** What a caller reads in the arguments and finds in the buffer. */
  predicate AsDocumented(cs: seq<CodePoint>, capacity: int, options: WriteOptions, nbytes: nat, nchars: nat,
                         now: seq<Byte>, was: seq<Byte>)
  {
    // A negative capacity stands for the longest length a string can have.
    var room := if capacity < 0 then 0x1FFF_FFE8 else capacity;
    && nchars <= |cs| && |now| == |was|
    && var text := EncodeAll(cs[..nchars]);
    && |text| <= nbytes <= room && nbytes <= |now| && now[..|text|] == text
    && (nchars < |cs| ==> |text| + |Encode(cs[nchars])| > room)
    && now[nbytes..] == was[nbytes..]
    && if options.noNullTermination || nchars < |cs| || |text| == room then nbytes == |text|
       else nbytes == |text| + 1 && now[|text|] == 0
  }

  lemma Documented(cs: seq<CodePoint>, capacity: int, options: WriteOptions, nchars: nat, now: seq<Byte>, was: seq<Byte>)
    requires LongestFit(cs, BufferCapacity(capacity), nchars)
    requires Overwritten(now, Output(cs, options, BufferCapacity(capacity), nchars), was)
    ensures var nbytes := |Output(cs, options, BufferCapacity(capacity), nchars)|;
            AsDocumented(cs, capacity, options, nbytes, nchars, now, was)
  {
    if nchars < |cs| {
      EncodeAllStep(cs, nchars);
    } else {
      assert cs[..nchars] == cs;
    }
  }

  // The ASCII fast path of `String::WriteUtf8`.
  method WriteAscii(str: EsString, buffer: array<Byte>, bufferCapacity: nat)
    returns (nbytes: nat, nchars: nat, byteLength: nat)
    requires Ascii(str.units)
    requires bufferCapacity <= buffer.Length || |str.units| <= buffer.Length
    modifies buffer
    ensures TextWritten(str.units, bufferCapacity, nchars, nbytes, byteLength, buffer[..], old(buffer[..]))
  {
    byteLength := |str.units|;
    var maxBytes := Min(bufferCapacity, byteLength);
    MemCpyToFront(buffer, str.units, 0, maxBytes);
    nchars, nbytes := maxBytes, maxBytes;
    AsciiPrefixesFit(str.units, bufferCapacity);
    assert str.units[0..nchars] == str.units[..nchars];
  }

  // The general path of `String::WriteUtf8`.
  method WriteSequences(str: EsString, buffer: array<Byte>, bufferCapacity: nat, replace: bool)
    returns (nbytes: nat, nchars: nat, byteLength: nat)
    requires bufferCapacity <= buffer.Length || |ToStdUTF8String(str.units, replace)| <= buffer.Length
    modifies buffer
    ensures TextWritten(CodePoints(str.units, replace), bufferCapacity, nchars, nbytes, byteLength,
                        buffer[..], old(buffer[..]))
  {
    var utf8Str := ToStdUTF8String(str.units, replace);
    byteLength := |utf8Str|;
    var maxBytes := Min(bufferCapacity, byteLength);
    nchars, nbytes := CopyUtf8Sequences(buffer, utf8Str, maxBytes, 0, 0);
    WholeSequencesAreLongestFit(CodePoints(str.units, replace), bufferCapacity);
  }

  // The two paths of `String::WriteUtf8`, before the NUL.
  method WriteText(str: EsString, buffer: array<Byte>, bufferCapacity: nat, replace: bool)
    returns (nbytes: nat, nchars: nat, byteLength: nat)
    requires bufferCapacity <= buffer.Length || |ToStdUTF8String(str.units, replace)| <= buffer.Length
    modifies buffer
    ensures TextWritten(CodePoints(str.units, replace), bufferCapacity, nchars, nbytes, byteLength,
                        buffer[..], old(buffer[..]))
  {
    var ascii := IsAsciiString(str);
    if ascii {
      AsciiIsItsEncoding(str.units, replace);
      nbytes, nchars, byteLength := WriteAscii(str, buffer, bufferCapacity);
    } else {
      nbytes, nchars, byteLength := WriteSequences(str, buffer, bufferCapacity, replace);
    }
  }

  /** `String::WriteUtf8`. The buffer must have room for whatever the capacity allows to be written. */
  method WriteUtf8(str: EsString, buffer: array<Byte>, capacity: int, options: WriteOptions)
    returns (nbytes: nat, nchars: nat)
    requires str.Valid()
    requires var room := BufferCapacity(capacity);
             || room <= buffer.Length
             || |ToStdUTF8String(str.units, options.replaceInvalidUtf8)| + (if options.noNullTermination then 0 else 1)
                <= buffer.Length
    modifies buffer
    ensures LongestFit(CodePoints(str.units, options.replaceInvalidUtf8), BufferCapacity(capacity), nchars)
    ensures var cs := CodePoints(str.units, options.replaceInvalidUtf8);
            var output := Output(cs, options, BufferCapacity(capacity), nchars);
            nbytes == |output| && Overwritten(buffer[..], output, old(buffer[..]))
    ensures AsDocumented(CodePoints(str.units, options.replaceInvalidUtf8), capacity, options, nbytes, nchars,
                         buffer[..], old(buffer[..]))
  {
    var bufferCapacity := BufferCapacity(capacity);
    var byteLength;
    nbytes, nchars, byteLength := WriteText(str, buffer, bufferCapacity, options.replaceInvalidUtf8);
    var writeNull := !options.noNullTermination;
    if writeNull && nbytes == byteLength && nbytes < bufferCapacity {
      StoreNext(buffer, nbytes, 0, buffer[..nbytes], old(buffer[..]));
      nbytes := nbytes + 1;
    }
    ghost var cs := CodePoints(str.units, options.replaceInvalidUtf8);
    Documented(cs, capacity, options, nchars, buffer[..], old(buffer[..]));
  }

  // ---- What the contract of WriteUtf8 means for its callers ----

  lemma PrefixesGrow(cs: seq<CodePoint>, k: nat, m: nat)
    requires k <= m <= |cs|
    ensures EncodeAll(cs[..k]) <= EncodeAll(cs[..m])
    ensures k < m ==> |EncodeAll(cs[..k])| < |EncodeAll(cs[..m])|
  {
    EncodeAllSplit(cs[..m], k);
    assert cs[..m][..k] == cs[..k];
    if k < m {
      assert EncodeAll(cs[..m][k..]) == Encode(cs[k]) + EncodeAll(cs[..m][k..][1..]);
    }
  }

  /** The outcome depends on the characters alone: whichever width the string is stored in, and whether
      or not the fast path applies, two calls write the same count and the same bytes. */
  lemma LongestFitUnique(cs: seq<CodePoint>, capacity: nat, k: nat, m: nat)
    requires LongestFit(cs, capacity, k) && LongestFit(cs, capacity, m)
    ensures k == m
  {
    if k < m {
      PrefixesGrow(cs, k + 1, m);
    } else if m < k {
      PrefixesGrow(cs, m + 1, k);
    }
  }

  /** A larger capacity extends the text. */
  lemma MonotoneInCapacity(cs: seq<CodePoint>, small: nat, large: nat, k: nat, m: nat)
    requires small <= large && LongestFit(cs, small, k) && LongestFit(cs, large, m)
    ensures k <= m && EncodeAll(cs[..k]) <= EncodeAll(cs[..m])
  {
    if m < k {
      PrefixesGrow(cs, m + 1, k);
    }
    PrefixesGrow(cs, k, m);
  }

  /** Stopping early wastes at most three bytes, and a capacity of the whole length never stops early. */
  lemma LittleIsWasted(cs: seq<CodePoint>, capacity: nat, k: nat)
    requires LongestFit(cs, capacity, k)
    ensures k < |cs| ==> capacity - |EncodeAll(cs[..k])| <= 3
    ensures k == |cs| <==> |EncodeAll(cs)| <= capacity
  {
    if k < |cs| {
      EncodeAllStep(cs, k);
      EncodeAllSplit(cs, k + 1);
    } else {
      assert cs[..k] == cs;
    }
  }

  /** `Utf8Length` predicts `WriteUtf8`: with that capacity, whatever the options, the whole string is
      written and takes exactly that many bytes. */
  lemma Utf8LengthSuffices(u: seq<CodeUnit>, options: WriteOptions, capacity: nat, nchars: nat)
    requires LongestFit(CodePoints(u, options.replaceInvalidUtf8), capacity, nchars)
    ensures var cs := CodePoints(u, options.replaceInvalidUtf8);
            |ToStdUTF8String(u, false)| <= capacity <==>
            nchars == |cs| && |EncodeAll(cs[..nchars])| == |ToStdUTF8String(u, false)|
  {
    var cs := CodePoints(u, options.replaceInvalidUtf8);
    EncodedLength(u, options.replaceInvalidUtf8);
    LittleIsWasted(cs, capacity, nchars);
    assert nchars == |cs| ==> cs[..nchars] == cs;
  }
}
