/** `builtinHelperFileRead` of sample/escargot-sample.cc: a file is read in pieces of at most 512 bytes
    and decoded optimistically as Latin-1; the first character above U+00FF, or the first invalid
    sequence, makes it start over and hand the raw bytes to the engine as UTF-8.
    The decoder runs over the end of a piece when a sequence is cut there. What it finds are stale or
    foreign bytes, so here they are arbitrary. */
module FileReader {
  import opened Options
  import opened Utf8

  const BUFFER_SIZE := 512
  const OVERRUN := 3 // bytes past a piece that the decoder may look at

  type Latin1 = seq<Byte>

  // ---- One piece ----

  /** A piece of the file with the bytes that happen to lie behind it. */
  datatype Piece = Piece(data: seq<Byte>, beyond: seq<Byte>) {
    predicate Valid() {
      0 < |data| <= BUFFER_SIZE && |beyond| >= OVERRUN
    }
  }

  /** The Latin-1 characters of the sequences that start in the first `n` bytes of `mem`, None when one
      of them is invalid or above U+00FF. A last sequence may extend past `n`. */
  function Scan(mem: seq<Byte>, n: int): Option<Latin1>
    decreases n
  {
    if n <= 0 then Some([])
    else if !LatinStart(mem) then None
    else Prepend([Payload(mem)], Scan(mem[Shape(mem)..], n - Shape(mem)))
  }

  // A valid sequence at the start of `s` that encodes at most U+00FF.
  predicate LatinStart(s: seq<Byte>) {
    Shape(s) > 0 && Payload(s) <= 255
  }

  function Prepend(str: Latin1, rest: Option<Latin1>): Option<Latin1> {
    match rest
    case None => None
    case Some(t) => Some(str + t)
  }

  lemma PrependLaws(a: Latin1, b: Latin1, rest: Option<Latin1>)
    ensures Prepend([], rest) == rest
    ensures Prepend(a, Prepend(b, rest)) == Prepend(a + b, rest)
  {
    match rest
    case None =>
    case Some(t) =>
      assert [] + t == t;
      assert a + (b + t) == (a + b) + t;
  }

  function ScanPiece(p: Piece): Option<Latin1> {
    Scan(p.data + p.beyond, |p.data|)
  }

  /** The first pass over pieces: the Latin-1 string, or None when the file has to be re-read. */
  function FirstPass(pieces: seq<Piece>): Option<Latin1> {
    if pieces == [] then Some([])
    else
      match ScanPiece(pieces[0])
      case None => None
      case Some(str) => Prepend(str, FirstPass(pieces[1..]))
  }

  function Contents(pieces: seq<Piece>): seq<Byte> {
    if pieces == [] then [] else pieces[0].data + Contents(pieces[1..])
  }

  /** `pieces` is one way of reading `file`. */
  predicate ReadingOf(pieces: seq<Piece>, file: seq<Byte>) {
    && Contents(pieces) == file
    && forall i | 0 <= i < |pieces| :: pieces[i].Valid()
  }

  predicate AllFull(pieces: seq<Piece>) {
    forall i | 0 <= i < |pieces| :: |pieces[i].data| == BUFFER_SIZE
  }

  /** Only the last piece may be short, as it is when no read fails. */
  predicate FullReads(pieces: seq<Piece>) {
    pieces == [] || AllFull(pieces[..|pieces| - 1])
  }

  // ---- When the reader can be misled ----

  /** A proper prefix of a sequence whose payload would be at most U+00FF. */
  predicate LatinPrefix(s: seq<Byte>) {
    || (|s| == 1 && (0xC0 <= s[0] <= 0xC3 || s[0] == 0xE0 || s[0] == 0xF0))
    || (|s| == 2 && s[0] == 0xE0 && 0x80 <= s[1] <= 0x83)
    || (|s| == 2 && s[0] == 0xF0 && s[1] == 0x80)
    || (|s| == 3 && s[0] == 0xF0 && s[1] == 0x80 && 0x80 <= s[2] <= 0x83)
  }

  /** Some way of reading `s` accepts it all as Latin-1: `s` splits into Latin-1 sequences and prefixes of
      such. */
  predicate CanPass(s: seq<Byte>)
    decreases |s|
  {
    || s == []
    || (LatinStart(s) && CanPass(s[Shape(s)..]))
    || (exists m | 1 <= m <= 3 && m <= |s| :: LatinPrefix(s[..m]) && CanPass(s[m..]))
  }

  /** The same with at least one truncated sequence: a property of the file alone. */
  predicate CanMislead(s: seq<Byte>)
    decreases |s|
  {
    || (LatinStart(s) && CanMislead(s[Shape(s)..]))
    || (exists m | 1 <= m <= 3 && m <= |s| :: LatinPrefix(s[..m]) && CanPass(s[m..]))
  }

  lemma LatinPrefixIfCut(data: seq<Byte>, beyond: seq<Byte>)
    requires data != [] && |data| < Shape(data + beyond) && Payload(data + beyond) <= 255
    ensures LatinPrefix(data) && |data| <= 3
  {
    var t := data + beyond;
    assert t[0] == data[0];
    assert |data| >= 2 ==> t[1] == data[1];
    assert |data| >= 3 ==> t[2] == data[2];
  }

  // Both predicates and the decoder see a whole sequence in front the same way.
  lemma WholeSequenceInFront(s: seq<Byte>)
    requires LatinStart(s)
    ensures CanPass(s[Shape(s)..]) ==> CanPass(s)
    ensures CanMislead(s[Shape(s)..]) ==> CanMislead(s)
    ensures DecodeAll(s) == match DecodeAll(s[Shape(s)..]) case None => None case Some(vs) => Some([Payload(s)] + vs)
  {
  }

  // What follows `data` does not matter to a sequence that ends inside it.
  lemma SameWholeSequence(data: seq<Byte>, beyond: seq<Byte>, rest: seq<Byte>)
    requires 0 < Shape(data + beyond) <= |data|
    ensures Shape(data + rest) == Shape(data + beyond) && Payload(data + rest) == Payload(data + beyond)
    ensures var n := Shape(data + beyond);
            (data + beyond)[n..] == data[n..] + beyond && (data + rest)[n..] == data[n..] + rest
  {
    BoundedAgreesWithUnbounded(data, beyond);
    BoundedAgreesWithUnbounded(data, rest);
  }

  lemma CutInFront(s: seq<Byte>, rest: seq<Byte>)
    requires LatinPrefix(s) && CanPass(rest)
    ensures CanPass(s + rest) && CanMislead(s + rest)
  {
    var all := s + rest;
    assert all[..|s|] == s && all[|s|..] == rest;
  }

  /** `str` is what decoding `s` gives, unless `s` can mislead. */
  predicate Decodes(s: seq<Byte>, str: Latin1) {
    CanPass(s) && (CanMislead(s) || DecodeAll(s) == Some(str))
  }

  lemma DecodesWithOneMore(s: seq<Byte>, str: Latin1, all: Latin1)
    requires LatinStart(s) && Decodes(s[Shape(s)..], str) && all == [Payload(s)] + str
    ensures Decodes(s, all)
  {
    WholeSequenceInFront(s);
  }

  lemma {:induction false} ScanDecodes(data: seq<Byte>, beyond: seq<Byte>, rest: seq<Byte>, str: Latin1, restStr: Latin1)
    requires Scan(data + beyond, |data|) == Some(str) && Decodes(rest, restStr)
    ensures Decodes(data + rest, str + restStr)
    decreases |data|
  {
    if data == [] {
      assert data + rest == rest;
      assert str + restStr == restStr;
    } else {
      var mem := data + beyond;
      var n, v := Shape(mem), Payload(mem);
      var str' := Scan(mem[n..], |data| - n).value;
      if n <= |data| {
        SameWholeSequence(data, beyond, rest);
        ScanDecodes(data[n..], beyond, rest, str', restStr);
        Associate([v], str', restStr);
        DecodesWithOneMore(data + rest, str' + restStr, str + restStr);
      } else {
        LatinPrefixIfCut(data, beyond);
        CutInFront(data, rest);
      }
    }
  }

  /** A run that never re-reads returns what decoding the file from its start gives, or else the file is
      one that can mislead. */
  lemma {:induction false} PassDecodes(pieces: seq<Piece>, file: seq<Byte>, str: Latin1)
    requires ReadingOf(pieces, file) && FirstPass(pieces) == Some(str)
    ensures Decodes(file, str)
  {
    if pieces != [] {
      var p := pieces[0];
      var first, rest := ScanPiece(p).value, FirstPass(pieces[1..]).value;
      PassDecodes(pieces[1..], Contents(pieces[1..]), rest);
      ScanDecodes(p.data, p.beyond, Contents(pieces[1..]), first, rest);
    }
  }

  /** A file whose sequences are all complete cannot mislead: what follows a cut starts with a
      continuation byte, and that forces the re-read. */
  lemma {:induction false} CompleteCannotMislead(s: seq<Byte>)
    requires DecodeAll(s).Some?
    ensures !CanMislead(s)
    decreases |s|
  {
    if s != [] {
      CompleteCannotMislead(s[Shape(s)..]);
      forall m | 1 <= m <= 3 && m <= |s| && LatinPrefix(s[..m])
        ensures !CanPass(s[m..])
      {
        assert s[..m][0] == s[0];
        assert Continuation(s[m]) && s[m..][0] == s[m];
        ContinuationCannotPass(s[m..]);
      }
    }
  }

  lemma ContinuationCannotPass(s: seq<Byte>)
    requires s != [] && Continuation(s[0])
    ensures !CanPass(s)
  {
    forall m | 1 <= m <= 3 && m <= |s|
      ensures !LatinPrefix(s[..m])
    {
      assert s[..m][0] == s[0];
    }
  }

  // Three continuation bytes complete any such prefix.
  lemma LatinPrefixPasses(s: seq<Byte>)
    requires LatinPrefix(s)
    ensures ScanPiece(Piece(s, [0x80, 0x80, 0x80])).Some?
  {
    var t := s + [0x80, 0x80, 0x80];
    assert t[0] == s[0];
    assert t[1] == if |s| > 1 then s[1] else 0x80;
    assert t[2] == if |s| > 2 then s[2] else 0x80;
    assert t[3] == 0x80;
    assert LatinStart(t) && Shape(t) > |s|;
  }

  lemma WholeSequencePasses(s: seq<Byte>)
    requires LatinStart(s)
    ensures ScanPiece(Piece(s[..Shape(s)], [0x80, 0x80, 0x80])).Some?
  {
    var n, beyond := Shape(s), [0x80, 0x80, 0x80];
    var t := s[..n] + beyond;
    assert s == s[..n] + s[n..];
    BoundedAgreesWithUnbounded(s[..n], s[n..]);
    BoundedAgreesWithUnbounded(s[..n], beyond);
    assert LatinStart(t) && Shape(t) == n;
    assert Scan(t[n..], 0) == Some([]);
  }

  lemma FirstPassingPiece(s: seq<Byte>) returns (m: nat, p: Piece)
    requires CanPass(s) && s != []
    ensures 0 < m <= |s| && CanPass(s[m..])
    ensures p.Valid() && p.data == s[..m] && ScanPiece(p).Some?
  {
    if LatinStart(s) && CanPass(s[Shape(s)..]) {
      m := Shape(s);
      WholeSequencePasses(s);
    } else {
      m :| 1 <= m <= 3 && m <= |s| && LatinPrefix(s[..m]) && CanPass(s[m..]);
      LatinPrefixPasses(s[..m]);
    }
    p := Piece(s[..m], [0x80, 0x80, 0x80]);
  }

  lemma OnePieceBefore(p: Piece, rest: seq<Piece>, file: seq<Byte>)
    requires p.Valid() && ScanPiece(p).Some? && ReadingOf(rest, file) && FirstPass(rest).Some?
    ensures ReadingOf([p] + rest, p.data + file) && FirstPass([p] + rest).Some?
  {
    assert ([p] + rest)[1..] == rest;
  }

  lemma {:induction false} PassingPieces(s: seq<Byte>) returns (pieces: seq<Piece>)
    requires CanPass(s)
    ensures ReadingOf(pieces, s) && FirstPass(pieces).Some?
    decreases |s|
  {
    pieces := [];
    if s != [] {
      var m, p := FirstPassingPiece(s);
      var rest := PassingPieces(s[m..]);
      OnePieceBefore(p, rest, s[m..]);
      assert s == s[..m] + s[m..];
      pieces := [p] + rest;
    }
  }

  lemma {:induction false} MisleadingCanPass(s: seq<Byte>)
    requires CanMislead(s)
    ensures CanPass(s)
    decreases |s|
  {
    if LatinStart(s) && CanMislead(s[Shape(s)..]) {
      MisleadingCanPass(s[Shape(s)..]);
    }
  }

  /** Every way of reading the file either re-reads it or decodes it correctly. */
  ghost predicate AlwaysReadCorrectly(file: seq<Byte>) {
    forall pieces | ReadingOf(pieces, file) ::
      FirstPass(pieces) == None || FirstPass(pieces) == DecodeAll(file)
  }

  /** For any bytes whatever, the reader is right under every cut and every overrun exactly when the file
      does not contain a truncated sequence among Latin-1 text. */
  lemma ReadCorrectlyIff(file: seq<Byte>)
    ensures AlwaysReadCorrectly(file) <==> !CanMislead(file)
  {
    if CanMislead(file) {
      MisleadingCanPass(file);
      var pieces := PassingPieces(file);
      if DecodeAll(file).Some? {
        CompleteCannotMislead(file);
      }
      assert FirstPass(pieces) != DecodeAll(file);
    } else {
      forall pieces | ReadingOf(pieces, file) && FirstPass(pieces).Some?
        ensures FirstPass(pieces) == DecodeAll(file)
      {
        PassDecodes(pieces, file, FirstPass(pieces).value);
      }
    }
  }

  /** The smallest misleading file: one lead byte, completed by whatever was in the buffer before. */
  lemma LoneLeadByteMisleads()
    ensures !AlwaysReadCorrectly([0xC3])
    ensures FirstPass([Piece([0xC3], [0xA9, 0, 0])]) == Some([0xE9])
  {
    var s: seq<Byte> := [0xC3];
    assert s[..1] == s && s[1..] == [];
    assert LatinPrefix(s[..1]) && CanPass(s[1..]);
    ReadCorrectlyIff(s);
    var t: seq<Byte> := [0xC3, 0xA9, 0, 0];
    assert s + [0xA9, 0, 0] == t;
    assert Shape(t) == 2 && Payload(t) == 0xE9;
    var p := Piece(s, [0xA9, 0, 0]);
    assert p.data + p.beyond == t;
    assert Scan(t, 1) == Prepend([0xE9], Scan(t[2..], -1));
    PrependLaws([0xE9], [], None);
    assert [0xE9] + [] == [0xE9];
    assert ScanPiece(p) == Some([0xE9]);
    assert FirstPass([p]) == Prepend([0xE9], FirstPass([p][1..]));
  }

  // ---- When the file is re-read ----

  predicate AllLatin(vs: seq<int>) {
    forall v | v in vs :: v <= 255
  }

  /** No sequence is cut by the end of a piece. */
  predicate NoneCut(pieces: seq<Piece>) {
    forall p | p in pieces :: DecodeAll(p.data).Some?
  }

  lemma {:induction false} DecodeConcat(data: seq<Byte>, rest: seq<Byte>)
    requires DecodeAll(data).Some?
    ensures DecodeAll(data + rest) ==
            match DecodeAll(rest) case None => None case Some(vs) => Some(DecodeAll(data).value + vs)
    decreases |data|
  {
    if data == [] {
      assert data + rest == rest;
      match DecodeAll(rest) case None => case Some(vs) => assert [] + vs == vs;
    } else {
      assert data + [] == data;
      SameWholeSequence(data, [], rest);
      DecodeConcat(data[Shape(data)..], rest);
      match DecodeAll(rest)
      case None =>
      case Some(vs) =>
        var tail := DecodeAll(data[Shape(data)..]).value;
        assert [Payload(data)] + (tail + vs) == ([Payload(data)] + tail) + vs;
    }
  }

  // A piece of whole sequences passes exactly when they are all Latin-1.
  lemma {:induction false} WholePieceScans(data: seq<Byte>, beyond: seq<Byte>)
    requires DecodeAll(data).Some?
    ensures Scan(data + beyond, |data|).Some? <==> AllLatin(DecodeAll(data).value)
    decreases |data|
  {
    if data != [] {
      assert data + [] == data;
      SameWholeSequence(data, [], beyond);
      var later := data[Shape(data)..];
      WholePieceScans(later, beyond);
      assert (data + beyond)[Shape(data)..] == later + beyond;
      var vs, tail := DecodeAll(data).value, DecodeAll(later).value;
      assert forall v :: v in vs <==> v == Payload(data) || v in tail;
      assert Payload(data) in vs;
    }
  }

  // When a piece and what follows both pass, no sequence was cut between them.
  lemma {:induction false} CutIsNoticed(data: seq<Byte>, beyond: seq<Byte>, rest: seq<Byte>)
    requires Scan(data + beyond, |data|).Some? && CanPass(rest) && DecodeAll(data + rest).Some?
    ensures DecodeAll(data).Some?
    decreases |data|
  {
    if data != [] {
      var mem := data + beyond;
      var n := Shape(mem);
      if n <= |data| {
        SameWholeSequence(data, beyond, rest);
        SameWholeSequence(data, beyond, []);
        assert data + [] == data && data[n..] + [] == data[n..];
        CutIsNoticed(data[n..], beyond, rest);
      } else {
        LatinPrefixIfCut(data, beyond);
        assert (data + rest)[0] == data[0];
        assert Continuation(rest[0]) by {
          assert (data + rest)[|data|] == rest[0];
        }
        ContinuationCannotPass(rest);
      }
    }
  }

  /** A well-formed file is taken as Latin-1 exactly when all its characters are and no read ends inside a
      sequence: a cut always forces the re-read, whatever lies behind the piece. */
  lemma {:induction false} TakenAsLatin1Iff(pieces: seq<Piece>, file: seq<Byte>)
    requires ReadingOf(pieces, file) && DecodeAll(file).Some?
    ensures FirstPass(pieces).Some? <==> NoneCut(pieces) && AllLatin(DecodeAll(file).value)
  {
    if pieces != [] {
      var p, later := pieces[0], pieces[1..];
      var rest := Contents(later);
      if FirstPass(pieces).Some? {
        PassDecodes(later, rest, FirstPass(later).value);
        CutIsNoticed(p.data, p.beyond, rest);
      }
      if DecodeAll(p.data).Some? {
        DecodeConcat(p.data, rest);
        WholePieceScans(p.data, p.beyond);
        TakenAsLatin1Iff(later, rest);
        var a, b := DecodeAll(p.data).value, DecodeAll(rest).value;
        assert forall v :: v in a + b <==> v in a || v in b;
        assert forall q :: q in pieces <==> q == p || q in later;
      }
    }
  }

  // ---- The reader ----

  /** An open file. When reading is `steady`, a read delivers what was asked for or all that is left;
      otherwise errors may cut it short, though never to nothing before the end. */
  class File {
    const contents: seq<Byte>
    const steady: bool
    var pos: nat

    ghost predicate Valid()
      reads this
    {
      pos <= |contents|
    }

    constructor (contents: seq<Byte>, steady: bool)
      ensures Valid() && this.contents == contents && this.steady == steady && pos == 0
    {
      this.contents, this.steady, pos := contents, steady, 0;
    }

    /** `fread`: the bytes of `buf` past those delivered are not promised to be anything. */
    method Fread(buf: array<Byte>, size: nat) returns (n: nat)
      requires Valid() && 0 < size <= buf.Length
      modifies this`pos, buf
      ensures Valid() && n <= size && pos == old(pos) + n
      ensures n == 0 <==> old(pos) == |contents|
      ensures steady ==> n == size || pos == |contents|
      ensures buf[..n] == contents[old(pos)..pos]
    {
      if pos == |contents| {
        return 0;
      }
      var most := if size <= |contents| - pos then size else |contents| - pos;
      n := most;
      if !steady {
        n :| 0 < n <= most;
      }
      forall k | 0 <= k < n {
        buf[k] := contents[pos + k];
      }
      pos := pos + n;
    }

    /** `fseek(fp, 0, SEEK_SET)`. */
    method Rewind()
      modifies this`pos
      ensures pos == 0
    {
      pos := 0;
    }
  }

  /** What the engine string is created from. */
  datatype Source = CannotOpen | FromLatin1(str: Latin1) | FromUtf8(bytes: seq<Byte>)

  // The sequences in front of `source` are scanned and gave `done`.
  predicate Scanned(buf: seq<Byte>, readLen: nat, done: Latin1, source: nat) {
    source <= |buf| && Scan(buf, readLen) == Prepend(done, Scan(buf[source..], readLen - source))
  }

  lemma ScanStep(buf: seq<Byte>, readLen: nat, source: nat, next: nat)
    requires source < readLen <= |buf| && LatinStart(buf[source..]) && next == source + Shape(buf[source..])
    ensures Scan(buf[source..], readLen - source) == Prepend([Payload(buf[source..])], Scan(buf[next..], readLen - next))
  {
    var s := buf[source..];
    assert s[Shape(s)..] == buf[next..];
  }

  lemma ScannedOneMore(buf: seq<Byte>, readLen: nat, done: Latin1, source: nat, next: nat)
    requires Scanned(buf, readLen, done, source) && source < readLen <= |buf| && next == source + Shape(buf[source..])
    ensures LatinStart(buf[source..]) ==> Scanned(buf, readLen, done + [Payload(buf[source..])], next)
    ensures !LatinStart(buf[source..]) ==> Scan(buf, readLen) == None
  {
    if LatinStart(buf[source..]) {
      ScanStep(buf, readLen, source, next);
      PrependLaws(done, [Payload(buf[source..])], Scan(buf[next..], readLen - next));
    }
  }

  lemma NothingScanned(buf: seq<Byte>, readLen: nat)
    ensures Scanned(buf, readLen, [], 0)
  {
    assert buf[0..] == buf;
    PrependLaws([], [], Scan(buf, readLen));
  }

  /** One piece of the first pass: appends to `str` until the piece ends or a character does not fit.
      `piece` is what the buffer holds. */
  method DecodePiece(buf: seq<Byte>, readLen: nat, str0: Latin1, ghost piece: Piece)
    returns (hasNonLatin1Content: bool, str: Latin1)
    requires piece.Valid() && |piece.data| == readLen && piece.data + piece.beyond == buf
    ensures hasNonLatin1Content <==> ScanPiece(piece) == None
    ensures !hasNonLatin1Content ==> str == str0 + ScanPiece(piece).value
  {
    hasNonLatin1Content, str := false, str0;
    var source, charlen := 0, 0;
    ghost var done: Latin1 := [];
    NothingScanned(buf, readLen);
    while source < readLen
      invariant 0 <= source <= readLen + OVERRUN
      invariant str == str0 + done && Scanned(buf, readLen, done, source)
      decreases readLen - source
    {
      var ch, valid;
      ScannedOneMore(buf, readLen, done, source, source + Shape(buf[source..]));
      ch, valid, charlen, source := ReadUTF8Sequence(buf, source, charlen);
      if ch > 255 {
        hasNonLatin1Content := true;
        break;
      }
      str := str + [ch];
      done := done + [ch];
    }
    assert done + [] == done;
  }

  lemma {:induction false} FirstPassAppend(pieces: seq<Piece>, p: Piece)
    ensures Contents(pieces + [p]) == Contents(pieces) + p.data
    ensures FirstPass(pieces + [p]) ==
            match FirstPass(pieces) case None => None case Some(str) => Prepend(str, ScanPiece(p))
  {
    if pieces == [] {
      assert pieces + [p] == [p] && [p][1..] == [];
      match ScanPiece(p)
      case None =>
      case Some(str) =>
        assert FirstPass([p]) == Prepend(str, FirstPass([p][1..]));
        assert str + [] == str && [] + str == str;
    } else {
      assert (pieces + [p])[1..] == pieces[1..] + [p];
      FirstPassAppend(pieces[1..], p);
      assert pieces[0].data + (Contents(pieces[1..]) + p.data) == Contents(pieces) + p.data;
      match ScanPiece(pieces[0])
      case None =>
      case Some(str) =>
        match FirstPass(pieces[1..])
        case None =>
        case Some(rest) => PrependLaws(str, rest, ScanPiece(p));
    }
  }

  /** The state of the reader when the reads so far amount to `done`. */
  ghost predicate Progress(file: seq<Byte>, done: seq<Byte>, hasNonLatin1Content: bool, str: Latin1,
                           utf8Str: seq<Byte>, pieces: seq<Piece>)
  {
    if hasNonLatin1Content then utf8Str == done && Contents(pieces) <= file && FirstPass(pieces) == None
    else ReadingOf(pieces, done) && FirstPass(pieces) == Some(str) && utf8Str == []
  }

  lemma OnePieceMore(file: seq<Byte>, done: seq<Byte>, str: Latin1, pieces: seq<Piece>, p: Piece, str': Latin1)
    requires Progress(file, done, false, str, [], pieces) && p.Valid() && done + p.data <= file
    ensures ScanPiece(p) == None ==> Progress(file, [], true, str', [], pieces + [p])
    ensures ScanPiece(p).Some? && str' == str + ScanPiece(p).value ==>
              Progress(file, done + p.data, false, str', [], pieces + [p])
  {
    FirstPassAppend(pieces, p);
  }

  /** The two ways of ending: the pieces of the whole file made up the Latin-1 string, or some piece
      stopped the first pass and the file itself was handed over. */
  predicate ReadOutcome(file: seq<Byte>, src: Source, pieces: seq<Piece>) {
    match src
    case CannotOpen => false
    case FromLatin1(str) => ReadingOf(pieces, file) && FirstPass(pieces) == Some(str)
    case FromUtf8(bytes) => bytes == file && Contents(pieces) <= file && FirstPass(pieces) == None
  }

  /** The body of the reading loop: what is done with the `readLen` bytes just read. */
  method TakePiece(fp: File, buf: seq<Byte>, readLen: nat, hasNonLatin1Content0: bool, str0: Latin1,
                   utf8Str0: seq<Byte>, ghost done: seq<Byte>, ghost pieces0: seq<Piece>)
    returns (hasNonLatin1Content: bool, str: Latin1, utf8Str: seq<Byte>, ghost pieces: seq<Piece>)
    requires fp.Valid() && 0 < readLen <= BUFFER_SIZE && readLen + OVERRUN <= |buf|
    requires done + buf[..readLen] == fp.contents[..fp.pos]
    requires Progress(fp.contents, done, hasNonLatin1Content0, str0, utf8Str0, pieces0)
    modifies fp`pos
    ensures fp.pos == (if hasNonLatin1Content && !hasNonLatin1Content0 then 0 else old(fp.pos))
    ensures hasNonLatin1Content0 ==> hasNonLatin1Content
    ensures Progress(fp.contents, fp.contents[..fp.pos], hasNonLatin1Content, str, utf8Str, pieces)
    ensures hasNonLatin1Content0 ==> pieces == pieces0
    ensures !hasNonLatin1Content0 ==> pieces == pieces0 + [Piece(buf[..readLen], buf[readLen..])]
  {
    hasNonLatin1Content, str, utf8Str, pieces := hasNonLatin1Content0, str0, utf8Str0, pieces0;
    if !hasNonLatin1Content {
      ghost var piece := Piece(buf[..readLen], buf[readLen..]);
      hasNonLatin1Content, str := DecodePiece(buf, readLen, str, piece);
      OnePieceMore(fp.contents, done, str0, pieces, piece, str);
      pieces := pieces + [piece];
      if hasNonLatin1Content {
        fp.Rewind();
      }
    } else {
      utf8Str := utf8Str + buf[..readLen];
    }
  }

  lemma ReadOn(contents: seq<Byte>, pos: nat, n: nat)
    requires n <= pos <= |contents|
    ensures contents[..pos - n] + contents[pos - n..pos] == contents[..pos]
  {
  }

  // How steady reads leave things: while the first pass goes on, a read that is short is the last.
  predicate Filled(pieces: seq<Piece>, firstPass: bool, readLen: nat, atEnd: bool) {
    && FullReads(pieces)
    && (firstPass && readLen > 0 ==> AllFull(pieces) && (readLen == BUFFER_SIZE || atEnd))
  }

  lemma FilledOneMore(pieces: seq<Piece>, p: Piece, atEnd: bool, firstPass: bool, readLen: nat, atEnd': bool)
    requires Filled(pieces, true, |p.data|, atEnd) && p.Valid()
    requires atEnd && firstPass ==> readLen == 0
    requires readLen == BUFFER_SIZE || atEnd' || readLen == 0
    ensures Filled(pieces + [p], firstPass, readLen, atEnd')
  {
    assert (pieces + [p])[..|pieces|] == pieces;
  }

  lemma ReadEnds(file: seq<Byte>, hasNonLatin1Content: bool, str: Latin1, utf8Str: seq<Byte>, pieces: seq<Piece>)
    requires Progress(file, file, hasNonLatin1Content, str, utf8Str, pieces)
    ensures var src := if hasNonLatin1Content then FromUtf8(utf8Str) else FromLatin1(str);
            && ReadOutcome(file, src, pieces)
            && (DecodeAll(file).Some? ==> Text(src) == DecodeAll(file))
  {
    var src := if hasNonLatin1Content then FromUtf8(utf8Str) else FromLatin1(str);
    if DecodeAll(file).Some? {
      CompleteFileIsReadExactly(file, src, pieces);
    }
  }

  lemma FullReadsHave512(pieces: seq<Piece>)
    requires FullReads(pieces)
    ensures forall i | 0 <= i < |pieces| - 1 :: |pieces[i].data| == 512
  {
    assert forall i | 0 <= i < |pieces| - 1 :: pieces[i] == pieces[..|pieces| - 1][i];
  }

  /** `builtinHelperFileRead`. `pieces` records the reads of the first pass. */
  method FileRead(fp: File?) returns (src: Source, ghost pieces: seq<Piece>)
    requires fp != null ==> fp.Valid() && fp.pos == 0
    modifies fp
    ensures src == CannotOpen <==> fp == null
    ensures fp != null ==> ReadOutcome(fp.contents, src, pieces)
    ensures fp != null && fp.steady ==> FullReads(pieces)
    ensures fp != null && DecodeAll(fp.contents).Some? ==> Text(src) == DecodeAll(fp.contents)
  {
    pieces := [];
    if fp == null {
      return CannotOpen, pieces;
    }
    var utf8Str: seq<Byte>, str: Latin1 := [], [];
    var buf := new Byte[BUFFER_SIZE + OVERRUN];
    var hasNonLatin1Content := false;
    ghost var done: seq<Byte> := [];
    var readLen: nat := fp.Fread(buf, BUFFER_SIZE);
    ReadOn(fp.contents, fp.pos, readLen);
    while readLen != 0
      invariant fresh(buf) && buf.Length == BUFFER_SIZE + OVERRUN
      invariant fp.Valid() && readLen <= BUFFER_SIZE && (readLen == 0 ==> fp.pos == |fp.contents|)
      invariant done + buf[..readLen] == fp.contents[..fp.pos]
      invariant Progress(fp.contents, done, hasNonLatin1Content, str, utf8Str, pieces)
      invariant fp.steady ==> Filled(pieces, !hasNonLatin1Content, readLen, fp.pos == |fp.contents|)
      decreases !hasNonLatin1Content, |fp.contents| - fp.pos, readLen
    {
      ghost var first, before, end := !hasNonLatin1Content, pieces, fp.pos == |fp.contents|;
      ghost var piece := Piece(buf[..readLen], buf[readLen..]);
      hasNonLatin1Content, str, utf8Str, pieces :=
        TakePiece(fp, buf[..], readLen, hasNonLatin1Content, str, utf8Str, done, pieces);
      done := fp.contents[..fp.pos];
      readLen := fp.Fread(buf, BUFFER_SIZE);
      ReadOn(fp.contents, fp.pos, readLen);
      if fp.steady && first {
        FilledOneMore(before, piece, end, !hasNonLatin1Content, readLen, fp.pos == |fp.contents|);
      }
    }
    assert done + buf[..0] == done;
    assert fp.contents[..fp.pos] == fp.contents;
    src := if hasNonLatin1Content then FromUtf8(utf8Str) else FromLatin1(str);
    ReadEnds(fp.contents, hasNonLatin1Content, str, utf8Str, pieces);
  }

  /** The text of the created string: Latin-1 bytes are code points, UTF-8 bytes are decoded. */
  function Text(src: Source): Option<seq<int>> {
    match src
    case CannotOpen => None
    case FromLatin1(str) => Some(str)
    case FromUtf8(bytes) => DecodeAll(bytes)
  }

  /** A file of complete sequences is read exactly, however the reads fall and whatever lies behind
      them. */
  lemma CompleteFileIsReadExactly(file: seq<Byte>, src: Source, pieces: seq<Piece>)
    requires DecodeAll(file).Some? && ReadOutcome(file, src, pieces)
    ensures Text(src) == DecodeAll(file)
  {
    CompleteCannotMislead(file);
    if src.FromLatin1? {
      PassDecodes(pieces, file, src.str);
    }
  }

  /** In particular a UTF-8 file gives its code points. */
  lemma Utf8FileIsReadExactly(cs: seq<CodePoint>, src: Source, pieces: seq<Piece>)
    requires ReadOutcome(EncodeAll(cs), src, pieces)
    ensures Text(src) == Some(cs)
  {
    assert EncodeAll(cs) + [] == EncodeAll(cs) && cs + [] == cs;
    DecodeUndoesEncode(cs, []);
    CompleteFileIsReadExactly(EncodeAll(cs), src, pieces);
  }
}
