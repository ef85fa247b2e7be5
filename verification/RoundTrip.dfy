/** Reader undoes writer: what `String::WriteUtf8` leaves in a buffer, read back by `readUTF8Sequence`. */
module RoundTrip {
  import opened Options
  import opened Utf8
  import opened V8String

  /** A sequence of the right shape needs no byte after it to be read. */
  lemma ShapeIsReadable(mem: seq<Byte>, pos: nat)
    requires pos <= |mem| && Shape(mem[pos..]) > 0
    ensures Readable(mem, pos)
  {
    var s := mem[pos..];
    assert forall k | 0 <= k < |s| :: s[k] == mem[pos + k];
  }

  lemma EncodedInMemory(mem: seq<Byte>, pos: nat, c: CodePoint, rest: seq<CodePoint>)
    requires pos <= |mem| && EncodeAll([c] + rest) <= mem[pos..]
    ensures Shape(mem[pos..]) == |Encode(c)| && Payload(mem[pos..]) == c
    ensures EncodeAll(rest) <= mem[pos + |Encode(c)|..]
  {
    var s, e := mem[pos..], Encode(c);
    assert ([c] + rest)[1..] == rest;
    assert s == e + s[|e|..];
    EncodedShape(c, s[|e|..]);
    assert s[|e|..] == mem[pos + |e|..];
  }

  /** Reads as many sequences as `cs` has code points. Memory that starts with their encoding is enough: it
      may end with the last of them. */
  method ReadSequences(mem: seq<Byte>, nchars: nat, ghost cs: seq<CodePoint>) returns (read: seq<int>, next: nat)
    requires nchars == |cs| && EncodeAll(cs) <= mem
    ensures read == cs && next == |EncodeAll(cs)|
  {
    read, next := [], 0;
    var charlen: int := 0;
    assert mem[0..] == mem && cs[0..] == cs;
    while |read| < nchars
      invariant |read| <= nchars && read == cs[..|read|]
      invariant next == |EncodeAll(cs[..|read|])| <= |mem| && EncodeAll(cs[|read|..]) <= mem[next..]
    {
      ghost var c, rest := cs[|read|], cs[|read| + 1..];
      assert cs[|read|..] == [c] + rest;
      EncodedInMemory(mem, next, c, rest);
      ShapeIsReadable(mem, next);
      EncodeAllStep(cs, |read|);
      var ch, valid;
      ch, valid, charlen, next := ReadUTF8Sequence(mem, next, charlen);
      read := read + [ch];
    }
    assert cs[..nchars] == cs;
  }

  /** Writes a string and reads back what is in the buffer, without the NUL: the code points that were
      written come out, and reading stops at the last byte of the text. */
  method WriteThenRead(str: EsString, buffer: array<Byte>, capacity: int, options: WriteOptions)
    returns (nbytes: nat, nchars: nat, read: seq<int>, next: nat)
    requires str.Valid()
    requires var room := BufferCapacity(capacity);
             || room <= buffer.Length
             || |ToStdUTF8String(str.units, options.replaceInvalidUtf8)| + (if options.noNullTermination then 0 else 1)
                <= buffer.Length
    modifies buffer
    ensures var cs := CodePoints(str.units, options.replaceInvalidUtf8);
            && LongestFit(cs, BufferCapacity(capacity), nchars)
            && read == cs[..nchars] && next == |EncodeAll(cs[..nchars])|
            && nbytes == next + if EndsWithNul(cs, options, BufferCapacity(capacity), nchars) then 1 else 0
  {
    ghost var cs := CodePoints(str.units, options.replaceInvalidUtf8);
    nbytes, nchars := WriteUtf8(str, buffer, capacity, options);
    var length := Utf8Length(str);
    EncodedLength(str.units, options.replaceInvalidUtf8);
    PrefixesGrow(cs, nchars, |cs|);
    assert cs[..|cs|] == cs;
    var end := Min(nbytes, length);
    ghost var text := EncodeAll(cs[..nchars]);
    TextBeforeNul(cs, options, BufferCapacity(capacity), nchars, length);
    assert buffer[..end] == text;
    read, next := ReadSequences(buffer[..end], nchars, cs[..nchars]);
  }

  /** The text is what precedes the NUL: it cannot be longer than `Utf8Length` says. */
  lemma TextBeforeNul(cs: seq<CodePoint>, options: WriteOptions, capacity: nat, nchars: nat, length: int)
    requires nchars <= |cs| && length == |EncodeAll(cs)| && |EncodeAll(cs[..nchars])| <= length
    ensures var output, text := Output(cs, options, capacity, nchars), EncodeAll(cs[..nchars]);
            Min(|output|, length) == |text| && text <= output
  {
    assert nchars == |cs| ==> cs[..nchars] == cs;
  }
}
