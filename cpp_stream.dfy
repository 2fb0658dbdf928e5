/**
 * The two standard-library readers the C++ rodeo maker relies on:
 * `std::getline` over an `std::istringstream` and `std::stoi`.
 *
 * A stream is its text, a read position and the end-of-file and failure
 * flags. `std::getline` does nothing but set the failure flag once either
 * flag is set; otherwise it empties the line and copies characters up to
 * the delimiter (consumed, not stored) or the end of the text (which sets
 * end-of-file), and fails when it copies nothing and meets the end.
 */
module CppStream {
  import opened Wrappers
  import opened Text

  datatype Stream = Stream(data: string, pos: nat, eof: bool, fail: bool)

  /** A fresh `std::istringstream` over `data`. */
  function Open(data: string): (s: Stream)
    ensures s.data == data && s.pos == 0 && !s.eof && !s.fail
  {
    Stream(data, 0, false, false)
  }

  predicate WellFormed(s: Stream) { s.pos <= |s.data| }

  /** What is left to read, plus one while the stream is still good. */
  function Remaining(s: Stream): nat
    requires WellFormed(s)
  {
    |s.data| - s.pos + (if s.eof || s.fail then 0 else 1)
  }

  /** The position of the first `delim` at or after `pos`, or the end of the text. */
  function NextDelim(data: string, pos: nat, delim: char): (q: nat)
    requires pos <= |data|
    ensures pos <= q <= |data|
    ensures forall i :: pos <= i < q ==> data[i] != delim
    ensures q < |data| ==> data[q] == delim
    decreases |data| - pos
  {
    if pos == |data| || data[pos] == delim then pos else NextDelim(data, pos + 1, delim)
  }

  /** `std::getline(s, line, delim)`: the stream afterwards and the line afterwards. */
  function GetLine(s: Stream, line: string, delim: char): (r: (Stream, string))
    requires WellFormed(s)
    ensures WellFormed(r.0) && r.0.data == s.data
    ensures r.0.fail <==> s.eof || s.fail || s.pos == |s.data|
    ensures !r.0.fail ==> Remaining(r.0) < Remaining(s)
    ensures !r.0.fail ==> delim !in r.1
  {
    if s.eof || s.fail then (s.(fail := true), line)
    else if s.pos == |s.data| then (s.(eof := true, fail := true), "")
    else
      var q := NextDelim(s.data, s.pos, delim);
      if q == |s.data| then (s.(pos := q, eof := true), s.data[s.pos..])
      else (s.(pos := q + 1), s.data[s.pos..q])
  }

  /** The lines `while (std::getline(s, line, delim))` visits. */
  function Pieces(s: Stream, delim: char): seq<string>
    requires WellFormed(s)
    decreases Remaining(s)
  {
    var r := GetLine(s, "", delim);
    if r.0.fail then [] else [r.1] + Pieces(r.0, delim)
  }

  /** A read that succeeds yields the first piece and leaves the rest; one that fails leaves no piece. */
  lemma PiecesStep(s: Stream, line: string, delim: char)
    requires WellFormed(s)
    ensures var r := GetLine(s, line, delim);
      Pieces(s, delim) == if r.0.fail then [] else [r.1] + Pieces(r.0, delim)
  {
    var r0 := GetLine(s, "", delim);
    assert !r0.0.fail ==> r0 == GetLine(s, line, delim);
  }

  /** A split without its last piece when that piece is empty. */
  function DropEmptyTail(parts: seq<string>): seq<string>
  {
    if |parts| > 0 && parts[|parts| - 1] == "" then parts[..|parts| - 1] else parts
  }

  /**
   * The lines a reading loop visits are the pieces between delimiters, but
   * for an empty piece after the last delimiter (a trailing newline does not
   * make an extra empty line).
   */
  lemma PiecesSplit(data: string, delim: char)
    ensures Pieces(Open(data), delim) == DropEmptyTail(Split(data, delim))
  {
    PiecesFrom(data, 0, delim);
    assert data[0..] == data;
  }

  lemma {:induction false} PiecesFrom(data: string, pos: nat, delim: char)
    requires pos <= |data|
    ensures Pieces(Stream(data, pos, false, false), delim) == DropEmptyTail(Split(data[pos..], delim))
    decreases |data| - pos
  {
    if pos == |data| {
      PiecesAtEnd(data, pos, delim);
    } else if NextDelim(data, pos, delim) == |data| {
      PiecesLast(data, pos, delim);
    } else {
      PiecesFrom(data, NextDelim(data, pos, delim) + 1, delim);
      PiecesCons(data, pos, delim);
    }
  }

  lemma PiecesCons(data: string, pos: nat, delim: char)
    requires pos < |data| && NextDelim(data, pos, delim) < |data|
    requires var q := NextDelim(data, pos, delim);
      Pieces(Stream(data, q + 1, false, false), delim) == DropEmptyTail(Split(data[q + 1..], delim))
    ensures Pieces(Stream(data, pos, false, false), delim) == DropEmptyTail(Split(data[pos..], delim))
  {
    var q := NextDelim(data, pos, delim);
    var p := data[pos..q];
    var tail := data[q + 1..];
    var rest := Split(tail, delim);
    PiecesNext(data, pos, delim);
    SliceAround(data, pos, q);
    assert data[pos..] == p + [delim] + tail;
    SplitAfterPiece(p, delim, tail);
    DropEmptyTailCons(p, rest);
  }

  lemma PiecesAtEnd(data: string, pos: nat, delim: char)
    requires pos == |data|
    ensures Pieces(Stream(data, pos, false, false), delim) == []
    ensures DropEmptyTail(Split(data[pos..], delim)) == []
  {
    assert data[pos..] == "";
  }

  lemma PiecesLast(data: string, pos: nat, delim: char)
    requires pos < |data| && NextDelim(data, pos, delim) == |data|
    ensures Pieces(Stream(data, pos, false, false), delim) == [data[pos..]]
    ensures DropEmptyTail(Split(data[pos..], delim)) == [data[pos..]]
  {
    var r := GetLine(Stream(data, pos, false, false), "", delim);
    assert r.0.eof;
    assert Pieces(r.0, delim) == [];
    SplitPlain(data[pos..], delim);
  }

  lemma PiecesNext(data: string, pos: nat, delim: char)
    requires pos < |data| && NextDelim(data, pos, delim) < |data|
    ensures var q := NextDelim(data, pos, delim);
      Pieces(Stream(data, pos, false, false), delim) == [data[pos..q]] + Pieces(Stream(data, q + 1, false, false), delim)
  {
  }

  lemma SliceAround(data: string, pos: nat, q: nat)
    requires pos <= q < |data|
    ensures data[pos..] == data[pos..q] + [data[q]] + data[q + 1..]
  {
  }

  lemma DropEmptyTailCons(p: string, rest: seq<string>)
    requires |rest| >= 1
    ensures DropEmptyTail([p] + rest) == [p] + DropEmptyTail(rest)
  {
    if rest[|rest| - 1] == "" {
      assert ([p] + rest)[..|rest|] == [p] + rest[..|rest| - 1];
    }
  }

  // ---------------------------------------------------------------------
  // std::stoi

  const InvalidArgument := "std::invalid_argument"
  const OutOfRange := "std::out_of_range"

  /** The characters `isspace` accepts in the C locale. */
  predicate IsSpace(c: char)
  {
    c == ' ' || c == '\t' || c == '\n' || c == '\U{B}' || c == '\U{C}' || c == '\r'
  }

  /** The first position at or after `i` that is not white space. */
  function SkipSpace(s: string, i: nat): (k: nat)
    requires i <= |s|
    ensures i <= k <= |s| && (k < |s| ==> !IsSpace(s[k]))
    ensures forall j :: i <= j < k ==> IsSpace(s[j])
    decreases |s| - i
  {
    if i == |s| || !IsSpace(s[i]) then i else SkipSpace(s, i + 1)
  }

  /** The end of the run of decimal digits starting at `i`. */
  function DigitRun(s: string, i: nat): (k: nat)
    requires i <= |s|
    ensures i <= k <= |s| && (k < |s| ==> !IsDigit(s[k]))
    ensures AllDigits(s[i..k])
    decreases |s| - i
  {
    if i == |s| || !IsDigit(s[i]) then i else DigitRun(s, i + 1)
  }

  const IntMin := -0x8000_0000
  const IntMax := 0x7FFF_FFFF

  /**
   * `std::stoi(s)`: white space, an optional sign, then the longest run of
   * digits, whatever follows; no digits throws `std::invalid_argument`, a
   * value outside the 32-bit `int` range throws `std::out_of_range`.
   */
  function Stoi(s: string): (r: Result<int>)
    ensures r.Ok? ==> IntMin <= r.value <= IntMax
    ensures r.Err? ==> r.error == InvalidArgument || r.error == OutOfRange
  {
    var i := SkipSpace(s, 0);
    var negative := i < |s| && s[i] == '-';
    var j := if i < |s| && (s[i] == '-' || s[i] == '+') then i + 1 else i;
    var k := DigitRun(s, j);
    if k == j then Err(InvalidArgument)
    else
      var magnitude: int := DigitsValue(s[j..k]);
      var v: int := if negative then -magnitude else magnitude;
      if v < IntMin || v > IntMax then Err(OutOfRange) else Ok(v)
  }

  /** Reading back the decimal notation of an `int` gives the number. */
  lemma StoiRoundTrip(i: int)
    requires IntMin <= i <= IntMax
    ensures Stoi(IntToString(i)) == Ok(i)
  {
    var s := IntToString(i);
    var n: nat := if i < 0 then -i else i;
    var digits := NatToString(n);
    NatToStringRoundTrip(n);
    assert !IsSpace(s[0]);
    assert SkipSpace(s, 0) == 0;
    var j := if i < 0 then 1 else 0;
    assert s[j..] == digits;
    DigitsToEnd(s, j);
    assert s[j..|s|] == digits;
  }

  lemma {:induction false} DigitsToEnd(s: string, j: nat)
    requires j <= |s| && AllDigits(s[j..])
    ensures DigitRun(s, j) == |s|
    decreases |s| - j
  {
    if j < |s| {
      assert s[j..][0] == s[j];
      assert s[j + 1..] == s[j..][1..];
      DigitsToEnd(s, j + 1);
    }
  }
}
