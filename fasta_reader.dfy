/**
 * `src/imp/FastaReader.cpp`: the line filter of `readSequence`, over the
 * lines of the file already in memory (opening the file is not modelled).
 * Header lines are skipped; every other byte is upper-cased and kept only
 * when it is one of A, C, G, T, N.
 */
module FastaReader {
  import opened Text

  /** A non-empty line whose first byte is '>'. */
  predicate IsHeader(line: Bytes)
  {
    |line| > 0 && line[0] == '>'
  }

  /** Whether `readSequence` keeps byte `c` of a sequence line. */
  predicate Keeps(c: Byte)
  {
    c != '\r' && c != '\n' && ToUpper(c) in "ACGTN"
  }

  /** The kept bytes of one line, upper-cased, in order. */
  function CleanLine(line: Bytes): (r: Bytes)
    ensures |r| <= |line|
    ensures forall k :: 0 <= k < |r| ==> r[k] in "ACGTN"
    decreases |line|
  {
    if line == [] then []
    else
      var c := line[|line| - 1];
      CleanLine(line[..|line| - 1]) + (if Keeps(c) then [ToUpper(c)] else [])
  }

  /** Cleaning splits over concatenation. */
  lemma {:induction false} CleanLineAppend(a: Bytes, b: Bytes)
    ensures CleanLine(a + b) == CleanLine(a) + CleanLine(b)
    decreases |b|
  {
    if b != [] {
      var b' := b[..|b| - 1];
      assert (a + b)[..|a + b| - 1] == a + b';
      assert (a + b)[|a + b| - 1] == b[|b| - 1];
      CleanLineAppend(a, b');
    } else {
      assert a + b == a;
    }
  }

  /** A single byte is kept upper-cased, or dropped. */
  lemma CleanLineByte(c: Byte)
    ensures CleanLine([c]) == if Keeps(c) then [ToUpper(c)] else []
  {
    assert [c][..0] == [];
  }

  /** Lower-case bases are upper-cased and kept; '\r' and other bytes are dropped. */
  lemma CleanLineExample()
    ensures CleanLine("g\r") == "G"
    ensures CleanLine("nx") == "N"
  {
    assert CleanLine("g") == "G";
    assert "g\r"[..1] == "g";
    assert CleanLine("n") == "N";
    assert "nx"[..1] == "n";
  }

  /** The sequence `readSequence` returns: the cleaned non-header lines, concatenated. */
  function FastaSeq(lines: seq<Bytes>): (r: Bytes)
    ensures forall k :: 0 <= k < |r| ==> r[k] in "ACGTN"
    decreases |lines|
  {
    if lines == [] then []
    else
      var line := lines[|lines| - 1];
      FastaSeq(lines[..|lines| - 1]) + (if IsHeader(line) then [] else CleanLine(line))
  }

  /** The lines of two files read one after the other give the two sequences joined. */
  lemma {:induction false} FastaSeqAppend(a: seq<Bytes>, b: seq<Bytes>)
    ensures FastaSeq(a + b) == FastaSeq(a) + FastaSeq(b)
    decreases |b|
  {
    if b != [] {
      var b' := b[..|b| - 1];
      assert (a + b)[..|a + b| - 1] == a + b';
      assert (a + b)[|a + b| - 1] == b[|b| - 1];
      FastaSeqAppend(a, b');
    } else {
      assert a + b == a;
    }
  }

  /** A header line, wherever it sits, contributes nothing. */
  lemma HeaderIgnored(a: seq<Bytes>, h: Bytes, b: seq<Bytes>)
    requires IsHeader(h)
    ensures FastaSeq(a + [h] + b) == FastaSeq(a + b)
  {
    FastaSeqAppend(a + [h], b);
    FastaSeqAppend(a, b);
    assert (a + [h])[..|a + [h]| - 1] == a;
  }

  /** Nested loops push each kept byte of each sequence line. */
  method ReadSequence(lines: seq<Bytes>) returns (sequence: Bytes)
    ensures sequence == FastaSeq(lines)
  {
    sequence := [];
    var l := 0;
    while l < |lines|
      invariant 0 <= l <= |lines|
      invariant sequence == FastaSeq(lines[..l])
    {
      var buf := lines[l];
      assert lines[..l + 1][..l] == lines[..l];
      if !(|buf| > 0 && buf[0] == '>') {
        var k := 0;
        ghost var before := sequence;
        while k < |buf|
          invariant 0 <= k <= |buf|
          invariant sequence == before + CleanLine(buf[..k])
        {
          var c := buf[k];
          assert buf[..k + 1][..k] == buf[..k];
          if c != '\r' && c != '\n' {
            c := ToUpper(c);
            if c == 'A' || c == 'C' || c == 'G' || c == 'T' || c == 'N' {
              sequence := sequence + [c];
            }
          }
          k := k + 1;
        }
        assert buf[..k] == buf;
      }
      l := l + 1;
    }
    assert lines[..l] == lines;
  }
}
