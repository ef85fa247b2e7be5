/** Which files `builtinHelperFileRead` can misread when no read fails, so that all pieces but the last have
    512 bytes. Only what lies behind the pieces is arbitrary then. */
module SteadyReads {
  import opened Options
  import opened Utf8
  import opened FileReader

  /** What is left of a piece after its Latin-1 sequences. */
  function Remainder(s: seq<Byte>): seq<Byte>
    decreases |s|
  {
    if s != [] && LatinStart(s) then Remainder(s[Shape(s)..]) else s
  }

  /** A piece of Latin-1 sequences, the last of which may be truncated. */
  predicate PieceCanPass(s: seq<Byte>) {
    Remainder(s) == [] || LatinPrefix(Remainder(s))
  }

  function FirstPart(file: seq<Byte>): seq<Byte> {
    if |file| < BUFFER_SIZE then file else file[..BUFFER_SIZE]
  }

  function LaterPart(file: seq<Byte>): seq<Byte> {
    if |file| < BUFFER_SIZE then [] else file[BUFFER_SIZE..]
  }

  /** Every 512-byte part of the file can pass. */
  predicate AllPartsCanPass(file: seq<Byte>)
    decreases |file|
  {
    file == [] || (PieceCanPass(FirstPart(file)) && AllPartsCanPass(LaterPart(file)))
  }

  /** And in one of them the last sequence is truncated: by a multiple of 512 or by the end of the file. */
  predicate CanMisleadSteadily(file: seq<Byte>) {
    AllPartsCanPass(file) && SomePartIsCut(file)
  }

  predicate SomePartIsCut(file: seq<Byte>)
    decreases |file|
  {
    file != [] && (Remainder(FirstPart(file)) != [] || SomePartIsCut(LaterPart(file)))
  }

  // ---- One piece ----

  const CONTINUED: seq<Byte> := [0x80, 0x80, 0x80]

  /** Some bytes behind the piece let it pass exactly when it can pass. */
  lemma {:induction false} PassesOnlyIfItCan(data: seq<Byte>, beyond: seq<Byte>)
    requires Scan(data + beyond, |data|).Some?
    ensures PieceCanPass(data)
    decreases |data|
  {
    if data != [] {
      var n := Shape(data + beyond);
      if n <= |data| {
        SameWholeSequence(data, beyond, []);
        assert data + [] == data;
        PassesOnlyIfItCan(data[n..], beyond);
      } else {
        LatinPrefixIfCut(data, beyond);
        BoundedAgreesWithUnbounded(data, beyond);
      }
    }
  }

  lemma {:induction false} PassesIfItCan(data: seq<Byte>)
    requires PieceCanPass(data)
    ensures Scan(data + CONTINUED, |data|).Some?
    decreases |data|
  {
    if data != [] {
      if LatinStart(data) {
        assert data + [] == data;
        SameWholeSequence(data, [], CONTINUED);
        PassesIfItCan(data[Shape(data)..]);
      } else {
        LatinPrefixPasses(data);
      }
    }
  }

  lemma {:induction false} UncutDecodes(data: seq<Byte>)
    requires Remainder(data) == []
    ensures DecodeAll(data).Some?
    decreases |data|
  {
    if data != [] {
      UncutDecodes(data[Shape(data)..]);
    }
  }

  // A piece that can pass, in front of what can pass.
  lemma {:induction false} PassingInFront(data: seq<Byte>, rest: seq<Byte>)
    requires PieceCanPass(data) && CanPass(rest)
    ensures CanPass(data + rest)
    ensures Remainder(data) != [] || CanMislead(rest) ==> CanMislead(data + rest)
    decreases |data|
  {
    if data == [] {
      assert data + rest == rest;
    } else if LatinStart(data) {
      assert data + [] == data;
      SameWholeSequence(data, [], rest);
      PassingInFront(data[Shape(data)..], rest);
      WholeSequenceInFront(data + rest);
    } else {
      CutInFront(data, rest);
    }
  }

  // ---- The whole file ----

  lemma PartsMakeTheFile(file: seq<Byte>)
    ensures file == FirstPart(file) + LaterPart(file)
  {
  }

  /** Misleading with steady reads is misleading with some reads. */
  lemma {:induction false} SteadilyMisleads(file: seq<Byte>)
    requires AllPartsCanPass(file)
    ensures CanPass(file) && (SomePartIsCut(file) ==> CanMislead(file))
    decreases |file|
  {
    if file != [] {
      SteadilyMisleads(LaterPart(file));
      PassingInFront(FirstPart(file), LaterPart(file));
      PartsMakeTheFile(file);
    }
  }

  lemma {:induction false} FullReadsAreTheParts(pieces: seq<Piece>, file: seq<Byte>)
    requires ReadingOf(pieces, file) && FullReads(pieces) && pieces != []
    ensures file != [] && pieces[0].data == FirstPart(file)
    ensures ReadingOf(pieces[1..], LaterPart(file)) && FullReads(pieces[1..])
  {
    var p, later := pieces[0], pieces[1..];
    assert file == p.data + Contents(later);
    if later == [] {
      assert Contents(later) == [] && p.data + [] == p.data;
    } else {
      assert pieces[..|pieces| - 1][0] == p;
      assert forall i | 0 <= i < |later| - 1 :: later[i] == pieces[..|pieces| - 1][i + 1];
    }
  }

  /** A first pass that succeeds has passed every part; and if none was cut, the file decodes. */
  lemma {:induction false} SteadyPassDecodes(pieces: seq<Piece>, file: seq<Byte>)
    requires ReadingOf(pieces, file) && FullReads(pieces) && FirstPass(pieces).Some?
    ensures AllPartsCanPass(file) && (!SomePartIsCut(file) ==> DecodeAll(file).Some?)
    decreases |pieces|
  {
    if pieces != [] {
      FullReadsAreTheParts(pieces, file);
      var first, later := FirstPart(file), LaterPart(file);
      PassesOnlyIfItCan(first, pieces[0].beyond);
      SteadyPassDecodes(pieces[1..], later);
      PartsMakeTheFile(file);
      if !SomePartIsCut(file) {
        UncutDecodes(first);
        DecodeConcat(first, later);
      }
    }
  }

  lemma {:induction false} SteadyPassingPieces(file: seq<Byte>) returns (pieces: seq<Piece>)
    requires AllPartsCanPass(file)
    ensures ReadingOf(pieces, file) && FullReads(pieces) && FirstPass(pieces).Some?
    decreases |file|
  {
    pieces := [];
    if file != [] {
      var p := Piece(FirstPart(file), CONTINUED);
      PassesIfItCan(p.data);
      var later := SteadyPassingPieces(LaterPart(file));
      OnePieceBefore(p, later, LaterPart(file));
      PartsMakeTheFile(file);
      FullPieceBefore(p, later, LaterPart(file));
      pieces := [p] + later;
    }
  }

  lemma FullPieceBefore(p: Piece, later: seq<Piece>, rest: seq<Byte>)
    requires FullReads(later) && ReadingOf(later, rest) && (rest == [] || |p.data| == BUFFER_SIZE)
    ensures FullReads([p] + later)
  {
    if later != [] {
      assert Contents(later) == later[0].data + Contents(later[1..]);
      assert ([p] + later)[..|later|] == [p] + later[..|later| - 1];
    }
  }

  /** Whatever lies behind the pieces, steady reads of the file decode it correctly or re-read it. */
  ghost predicate SteadilyReadCorrectly(file: seq<Byte>) {
    forall pieces | ReadingOf(pieces, file) && FullReads(pieces) ::
      FirstPass(pieces) == None || FirstPass(pieces) == DecodeAll(file)
  }

  /** For any bytes whatever, steady reads are right whatever lies behind them exactly when not all
      512-byte parts of the file are Latin-1 sequences up to a truncated last one, or none is truncated. */
  lemma SteadilyReadCorrectlyIff(file: seq<Byte>)
    ensures SteadilyReadCorrectly(file) <==> !CanMisleadSteadily(file)
  {
    if CanMisleadSteadily(file) {
      SteadilyMisleads(file);
      var pieces := SteadyPassingPieces(file);
      if DecodeAll(file).Some? {
        CompleteCannotMislead(file);
      }
      assert FirstPass(pieces) != DecodeAll(file);
    } else {
      forall pieces | ReadingOf(pieces, file) && FullReads(pieces) && FirstPass(pieces).Some?
        ensures FirstPass(pieces) == DecodeAll(file)
      {
        SteadyPassDecodes(pieces, file);
        CompleteCannotMislead(file);
        PassDecodes(pieces, file, FirstPass(pieces).value);
      }
    }
  }

  /** What FileRead returns for any file whatever is its text, unless the file can mislead. */
  lemma SteadyFileIsReadExactly(file: seq<Byte>, src: Source, pieces: seq<Piece>)
    requires ReadOutcome(file, src, pieces) && FullReads(pieces) && !CanMisleadSteadily(file)
    ensures Text(src) == DecodeAll(file)
  {
    SteadilyReadCorrectlyIff(file);
  }

  /** A lone lead byte misleads also steady reads. */
  lemma LoneLeadByteMisleadsSteadily()
    ensures !SteadilyReadCorrectly([0xC3])
  {
    var s: seq<Byte> := [0xC3];
    assert Remainder(s) == s && FirstPart(s) == s && LaterPart(s) == [];
    assert SomePartIsCut(s) && AllPartsCanPass(s);
    SteadilyReadCorrectlyIff(s);
  }

  /** A lead byte followed by a letter misleads only reads that stop between the two. */
  lemma CutByAShortReadOnly()
    ensures !AlwaysReadCorrectly([0xC3, 0x41]) && SteadilyReadCorrectly([0xC3, 0x41])
  {
    var s: seq<Byte> := [0xC3, 0x41];
    assert s[..1] == [0xC3] && s[1..] == [0x41] && s[1..][1..] == [];
    assert LatinPrefix(s[..1]) && CanPass(s[1..][1..]) && LatinStart(s[1..]) && CanPass(s[1..]);
    ReadCorrectlyIff(s);
    assert Remainder(s) == s && FirstPart(s) == s && !LatinPrefix(s);
    SteadilyReadCorrectlyIff(s);
  }
}
