/**
  The corrupted reference files of the AXI file compare testbench
  (`addAxiFileCompareTests`): the good reference file is split at its
  newlines, one or two records are replaced by a copy of the next record
  ("skip one, duplicate another so the size is the same") and the pieces
  are joined again with newlines.
 */
module FixtureCorruption {
  import opened Wrappers
  import opened Lines
  import opened TestVectors

  /**
    `ref_data[:7] + [ref_data[8]] + ref_data[8:]`: piece 7 is dropped and
    piece 8 duplicated. Indexing `ref_data[8]` fails below nine pieces.
   */
  function SingleError<T>(pieces: seq<T>): (r: Option<seq<T>>)
    ensures r.Some? <==> |pieces| >= 9
    ensures r.Some? ==> |r.value| == |pieces|
    ensures r.Some? ==> forall i :: 0 <= i < |pieces| ==> r.value[i] == if i == 7 then pieces[8] else pieces[i]
  {
    if |pieces| < 9 then None
    else Some(pieces[..7] + [pieces[8]] + pieces[8..])
  }

  /** The single-error pieces are the original ones with piece 7 overwritten by piece 8. */
  lemma SingleErrorUpdate<T>(pieces: seq<T>)
    requires |pieces| >= 9
    ensures SingleError(pieces) == Some(pieces[7 := pieces[8]])
    ensures multiset(SingleError(pieces).value) == multiset(pieces) - multiset{pieces[7]} + multiset{pieces[8]}
  {
    var r := SingleError(pieces).value;
    assert r == pieces[7 := pieces[8]];
  }

  /**
    `ref_data[:7] + [ref_data[8], ref_data[8]] + ref_data[9:16] + [ref_data[17]] + ref_data[17:]`:
    pieces 7 and 16 are dropped, pieces 8 and 17 duplicated. Indexing
    `ref_data[17]` fails below eighteen pieces.
   */
  function TwoErrors<T>(pieces: seq<T>): (r: Option<seq<T>>)
    ensures r.Some? <==> |pieces| >= 18
    ensures r.Some? ==> |r.value| == |pieces|
    ensures r.Some? ==> forall i :: 0 <= i < |pieces| ==>
      r.value[i] == if i == 7 then pieces[8] else if i == 16 then pieces[17] else pieces[i]
  {
    if |pieces| < 18 then None
    else Some(pieces[..7] + [pieces[8], pieces[8]] + pieces[9..16] + [pieces[17]] + pieces[17..])
  }

  /** The two-error pieces are the original ones with pieces 7 and 16 overwritten by pieces 8 and 17. */
  lemma TwoErrorsUpdate<T>(pieces: seq<T>)
    requires |pieces| >= 18
    ensures TwoErrors(pieces) == Some(pieces[7 := pieces[8]][16 := pieces[17]])
  {
    var r := TwoErrors(pieces).value;
    assert r == pieces[7 := pieces[8]][16 := pieces[17]];
  }

  /** The single-error file: `b"\n".join(...)` of the corrupted pieces of the reference file. */
  function SingleErrorFile(reference: string): (r: Option<string>)
    ensures r.Some? <==> |Split(reference, '\n')| >= 9
    ensures r.Some? ==> Split(r.value, '\n') == SingleError(Split(reference, '\n')).value
  {
    var pieces := Split(reference, '\n');
    match SingleError(pieces)
    case None => None
    case Some(corrupted) =>
      SplitJoin(corrupted, '\n');
      Some(Join(corrupted, '\n'))
  }

  /** The two-error file: `b"\n".join(...)` of the corrupted pieces of the reference file. */
  function TwoErrorsFile(reference: string): (r: Option<string>)
    ensures r.Some? <==> |Split(reference, '\n')| >= 18
    ensures r.Some? ==> Split(r.value, '\n') == TwoErrors(Split(reference, '\n')).value
  {
    var pieces := Split(reference, '\n');
    match TwoErrors(pieces)
    case None => None
    case Some(corrupted) =>
      SplitJoin(corrupted, '\n');
      Some(Join(corrupted, '\n'))
  }

  /** A record list updated at one position gives the records of the updated word list. */
  lemma RecordsUpdate(words: seq<nat>, dataWidth: nat, i: nat, j: nat)
    requires i < |words| && j < |words|
    ensures Records(words, dataWidth)[i := Records(words, dataWidth)[j]] == Records(words[i := words[j]], dataWidth)
  {
  }

  /**
    Corrupting a generated reference file gives the reference file of the
    corrupted word list: word 7 replaced by a copy of word 8. It reads back
    as that list.
   */
  lemma SingleErrorReference(words: seq<nat>, dataWidth: nat)
    requires |words| >= 9
    ensures SingleErrorFile(ReferenceText(words, dataWidth)) == Some(ReferenceText(words[7 := words[8]], dataWidth))
    ensures ParseReference(SingleErrorFile(ReferenceText(words, dataWidth)).value) == Some(words[7 := words[8]])
  {
    var records := Records(words, dataWidth);
    ReferenceLines(words, dataWidth);
    SingleErrorUpdate(records + [[]]);
    RecordsUpdate(words, dataWidth, 7, 8);
    assert (records + [[]])[7 := records[8]] == records[7 := records[8]] + [[]];
    TerminatedAsJoin(Records(words[7 := words[8]], dataWidth), '\n');
    ReferenceRoundTrip(words[7 := words[8]], dataWidth);
  }

  /**
    Corrupting a generated reference file twice gives the reference file
    of the word list with word 7 replaced by word 8 and word 16 by word 17.
   */
  lemma TwoErrorsReference(words: seq<nat>, dataWidth: nat)
    requires |words| >= 18
    ensures TwoErrorsFile(ReferenceText(words, dataWidth))
         == Some(ReferenceText(words[7 := words[8]][16 := words[17]], dataWidth))
    ensures ParseReference(TwoErrorsFile(ReferenceText(words, dataWidth)).value)
         == Some(words[7 := words[8]][16 := words[17]])
  {
    var records := Records(words, dataWidth);
    var once := words[7 := words[8]];
    ReferenceLines(words, dataWidth);
    TwoErrorsUpdate(records + [[]]);
    RecordsUpdate(words, dataWidth, 7, 8);
    RecordsUpdate(once, dataWidth, 16, 17);
    assert (records + [[]])[7 := records[8]][16 := records[17]] == records[7 := records[8]][16 := records[17]] + [[]];
    TerminatedAsJoin(Records(once[16 := once[17]], dataWidth), '\n');
    ReferenceRoundTrip(once[16 := once[17]], dataWidth);
  }

  /**
    The compare testbench's fixtures: 256 words of 32 bits (length 256 * 32),
    so both corruptions apply and read back as the corrupted word lists.
   */
  lemma CompareFixtures(draws: seq<nat>)
    requires |draws| >= 256
    ensures DrawCount(256 * 32, 32) == 256
    ensures var files := Generated(draws, 32, 256 * 32);
      files.packed == draws[..256]
      && SingleErrorFile(files.reference) == Some(ReferenceText(files.packed[7 := files.packed[8]], 32))
      && TwoErrorsFile(files.reference) == Some(ReferenceText(files.packed[7 := files.packed[8]][16 := files.packed[17]], 32))
  {
    CallerConfigurations(32);
    var files := Generated(draws, 32, 256 * 32);
    SingleErrorReference(files.packed, 32);
    TwoErrorsReference(files.packed, 32);
  }
}
