/** `String::Write` of src/api-data.cc: UTF-16 output from a position on. */
module StringWrite {
  import opened V8String

  /** Whether a call with a buffer gets as far as writing. A negative `start` is a huge one as a size_t. */
  predicate Reaches(units: seq<CodeUnit>, start: int, length: int) {
    length != 0 && 0 <= start <= |units|
  }

  /** The units a call puts into the buffer. */
  function Text(units: seq<CodeUnit>, start: int, length: int): seq<CodeUnit> {
    if Reaches(units, start, length) then units[start..start + Min(BufferCapacity(length), |units| - start)] else []
  }

  /** A NUL follows when there is room left and the caller did not refuse it, also when more text is to
      come, and also when there was none. */
  predicate NulFollows(units: seq<CodeUnit>, start: int, length: int, options: WriteOptions) {
    && Reaches(units, start, length) && !options.noNullTermination
    && |Text(units, start, length)| < BufferCapacity(length)
  }

  function Written(units: seq<CodeUnit>, start: int, length: int, options: WriteOptions): seq<CodeUnit> {
    Text(units, start, length) + if NulFollows(units, start, length, options) then [0] else []
  }

  // The loop over one-byte characters.
  method Widen(source: seq<CodeUnit>, start: nat, nchars: nat, buffer: array<CodeUnit>)
    requires start + nchars <= |source| && nchars <= buffer.Length
    modifies buffer
    ensures Overwritten(buffer[..], source[start..start + nchars], old(buffer[..]))
  {
    var i := 0;
    for j := start to start + nchars
      invariant i == j - start
      invariant forall k :: 0 <= k < buffer.Length ==>
                  buffer[k] == if k < i then source[start + k] else old(buffer[k])
    {
      buffer[i] := source[j];
      i := i + 1;
    }
  }

  /** What a caller reads in the arguments and finds in the buffer. A string has at most 0x1FFF_FFE8 units, and
      a negative length stands for that many. */
  predicate UnitsAsDocumented(units: seq<CodeUnit>, start: int, length: int, noNullTermination: bool, nchars: nat,
                         now: seq<CodeUnit>, was: seq<CodeUnit>)
  {
    if start < 0 || start > |units| || length == 0 then nchars == 0 && now == was
    else
      && nchars == (if length < 0 || |units| - start < length then |units| - start else length)
      && nchars <= |now| == |was| && now[..nchars] == units[start..start + nchars]
      && if !noNullTermination && nchars < (if length < 0 then 0x1FFF_FFE8 else length)
         then nchars < |now| && now[nchars] == 0 && now[nchars + 1..] == was[nchars + 1..]
         else now[nchars..] == was[nchars..]
  }

  lemma UnitsDocumented(units: seq<CodeUnit>, start: int, length: int, options: WriteOptions, now: seq<CodeUnit>,
                   was: seq<CodeUnit>)
    requires |units| <= MAX_LENGTH && Overwritten(now, Written(units, start, length, options), was)
    ensures UnitsAsDocumented(units, start, length, options.noNullTermination, |Text(units, start, length)|, now, was)
  {
  }

  // What follows the checks of `String::Write`.
  method WriteFrom(str: EsString, buffer: array<CodeUnit>, start: nat, length: int, options: WriteOptions)
    returns (nchars: nat)
    requires str.Valid() && Reaches(str.units, start, length)
    requires |Written(str.units, start, length, options)| <= buffer.Length
    modifies buffer
    ensures nchars == |Text(str.units, start, length)|
    ensures Overwritten(buffer[..], Written(str.units, start, length, options), old(buffer[..]))
  {
    var bufferCapacity := BufferCapacity(length);
    nchars := Min(bufferCapacity, |str.units| - start);
    if str.has8BitContent {
      Widen(str.units, start, nchars, buffer);
    } else {
      MemCpyToFront(buffer, str.units, start, nchars);
    }
    var writeNull := !options.noNullTermination;
    if writeNull && nchars < bufferCapacity {
      StoreNext(buffer, nchars, 0, Text(str.units, start, length), old(buffer[..]));
    }
  }

  /** `String::Write`. The outcome does not depend on how wide the string is stored. */
  method Write(str: EsString, buffer: array?<CodeUnit>, start: int, length: int, options: WriteOptions)
    returns (nchars: nat)
    requires str.Valid()
    requires buffer != null ==> |Written(str.units, start, length, options)| <= buffer.Length
    modifies buffer
    ensures nchars == if buffer == null then 0 else |Text(str.units, start, length)|
    ensures buffer != null ==> Overwritten(buffer[..], Written(str.units, start, length, options), old(buffer[..]))
    ensures buffer != null ==>
              UnitsAsDocumented(str.units, start, length, options.noNullTermination, nchars, buffer[..], old(buffer[..]))
  {
    if buffer == null {
      return 0;
    }
    if length == 0 || start < 0 || start > |str.units| {
      nchars := 0;
    } else {
      nchars := WriteFrom(str, buffer, start, length, options);
    }
    UnitsDocumented(str.units, start, length, options, buffer[..], old(buffer[..]));
  }

  // ---- Reading a string piece by piece ----

  /** What the first `k` of successive calls write from `first` on when each starts where the one before it
      stopped. */
  function Pieces(units: seq<CodeUnit>, first: nat, lengths: seq<int>, k: nat): seq<CodeUnit>
    requires k <= |lengths|
    decreases k
  {
    if k == 0 then [] else WithNext(units, first, Pieces(units, first, lengths, k - 1), lengths[k - 1])
  }

  // One more call that starts where the ones before it stopped.
  function WithNext(units: seq<CodeUnit>, first: nat, before: seq<CodeUnit>, length: int): seq<CodeUnit> {
    before + Text(units, first + |before|, length)
  }

  // The room these calls have together.
  function Room(lengths: seq<int>, k: nat): nat
    requires k <= |lengths|
    decreases k
  {
    if k == 0 then 0 else Room(lengths, k - 1) + BufferCapacity(lengths[k - 1])
  }

  // Where the text that starts at `start` stops.
  lemma TextStops(units: seq<CodeUnit>, start: nat, length: int)
    requires start <= |units|
    ensures Text(units, start, length) == units[start..Min(|units|, start + BufferCapacity(length))]
  {
  }

  lemma SlicesJoin(units: seq<CodeUnit>, a: nat, b: nat, c: nat)
    requires a <= b <= c <= |units|
    ensures units[a..b] + units[b..c] == units[a..c]
  {
  }

  /** `text` is the string from `first` on as far as there is room. */
  predicate TextInRoom(units: seq<CodeUnit>, first: nat, text: seq<CodeUnit>, room: nat)
    requires first <= |units|
  {
    text == units[first..Min(|units|, first + room)]
  }

  lemma OnePieceMore(units: seq<CodeUnit>, first: nat, before: seq<CodeUnit>, room: nat, length: int,
                     after: seq<CodeUnit>, room': nat)
    requires first <= |units| && TextInRoom(units, first, before, room)
    requires after == WithNext(units, first, before, length) && room' == room + BufferCapacity(length)
    ensures TextInRoom(units, first, after, room')
  {
    var start := Min(|units|, first + room);
    assert first + |before| == start;
    TextStops(units, start, length);
    SlicesJoin(units, first, start, Min(|units|, start + BufferCapacity(length)));
  }

  /** Whatever the lengths of the buffers, the pieces fit together: they are the string from `first` on as
      far as there was room. */
  lemma {:induction false} PiecesFitTogether(units: seq<CodeUnit>, first: nat, lengths: seq<int>, k: nat)
    requires first <= |units| && k <= |lengths|
    ensures TextInRoom(units, first, Pieces(units, first, lengths, k), Room(lengths, k))
    decreases k
  {
    if k > 0 {
      PiecesFitTogether(units, first, lengths, k - 1);
      OnePieceMore(units, first, Pieces(units, first, lengths, k - 1), Room(lengths, k - 1), lengths[k - 1],
                   Pieces(units, first, lengths, k), Room(lengths, k));
    }
  }

  lemma WholeInRoom(units: seq<CodeUnit>, text: seq<CodeUnit>, room: nat)
    requires TextInRoom(units, 0, text, room)
    ensures text == units <==> room >= |units|
  {
    assert units[0..|units|] == units;
  }

  /** So the string is reassembled exactly if and only if the buffers had room for it together. */
  lemma PiecesReassemble(units: seq<CodeUnit>, lengths: seq<int>)
    ensures Pieces(units, 0, lengths, |lengths|) == units <==> Room(lengths, |lengths|) >= |units|
  {
    PiecesFitTogether(units, 0, lengths, |lengths|);
    WholeInRoom(units, Pieces(units, 0, lengths, |lengths|), Room(lengths, |lengths|));
  }

  lemma AllWritten(units: seq<CodeUnit>, lengths: seq<int>, text: seq<CodeUnit>)
    requires TextInRoom(units, 0, text, Room(lengths, |lengths|))
    ensures text == Pieces(units, 0, lengths, |lengths|)
    ensures text == units <==> Room(lengths, |lengths|) >= |units|
  {
    PiecesFitTogether(units, 0, lengths, |lengths|);
    WholeInRoom(units, text, Room(lengths, |lengths|));
  }

  /** A caller that empties one buffer again and again. It must have room for each request, or for the whole
      string and a NUL. */
  method WriteRepeatedly(str: EsString, buffer: array<CodeUnit>, lengths: seq<int>, options: WriteOptions)
    returns (text: seq<CodeUnit>)
    requires str.Valid()
    requires forall length | length in lengths :: Min(BufferCapacity(length), |str.units| + 1) <= buffer.Length
    modifies buffer
    ensures text == Pieces(str.units, 0, lengths, |lengths|)
    ensures text == str.units <==> Room(lengths, |lengths|) >= |str.units|
  {
    text := [];
    var start: nat := 0;
    for k := 0 to |lengths|
      invariant start == |text| && TextInRoom(str.units, 0, text, Room(lengths, k))
    {
      assert lengths[k] in lengths;
      var nchars := Write(str, buffer, start, lengths[k], options);
      assert buffer[..nchars] == Text(str.units, start, lengths[k]);
      OnePieceMore(str.units, 0, text, Room(lengths, k), lengths[k], text + buffer[..nchars], Room(lengths, k + 1));
      text := text + buffer[..nchars];
      start := start + nchars;
    }
    AllWritten(str.units, lengths, text);
  }
}
