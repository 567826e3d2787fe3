/**
 * The scanner split rule used for process output: lines end at '\n' as in
 * `bufio.ScanLines`, and, when no '\n' has arrived yet, a carriage return
 * also ends a token so that progress output rewritten with '\r' is seen.
 */
module LineSplitter {
  import opened Common

  const LF: byte := 10
  const CR: byte := 13

  /** `bytes.IndexByte`: the index of the first `b` in `s`, or -1. */
  function IndexByte(s: Bytes, b: byte): (r: int)
    ensures -1 <= r < |s|
    ensures r >= 0 ==> s[r] == b && forall k :: 0 <= k < r ==> s[k] != b
    ensures r == -1 <==> b !in s
  {
    if s == [] then -1
    else if s[0] == b then 0
    else
      var i := IndexByte(s[1..], b);
      assert forall k :: 1 <= k < |s| ==> s[k] == s[1..][k - 1];
      if i < 0 then -1 else i + 1
  }

  /** What a split function returns: how many bytes to consume and the token,
      `None` standing for a nil token ("need more data" when nothing is
      consumed). The error result is left out: neither `ScanLines` nor the
      carriage-return rule ever returns a non-nil error. */
  datatype Split = Split(advance: int, token: Option<Bytes>)

  /** `s` without one trailing '\r': exactly one '\r' is removed when `s`
      ends in one, and nothing otherwise. */
  function DropCR(s: Bytes): (r: Bytes)
    ensures |s| > 0 && s[|s| - 1] == CR ==> r + [CR] == s
    ensures |s| == 0 || s[|s| - 1] != CR ==> r == s
  {
    if |s| > 0 && s[|s| - 1] == CR then s[..|s| - 1] else s
  }

  /** `bufio.ScanLines`: a token is everything up to the first '\n', without
      a trailing '\r'; at EOF a non-empty remainder is the last line; at EOF
      with no data, and before EOF with no '\n', nothing is consumed. */
  function ScanLines(data: Bytes, atEOF: bool): (r: Split)
    ensures 0 <= r.advance <= |data|
    ensures r.token.Some? <==> r.advance > 0
    ensures r.advance > 0 <==> LF in data || (atEOF && |data| > 0)
    ensures LF in data ==>
      && data[r.advance - 1] == LF
      && LF !in data[..r.advance - 1]
      && r.token == Some(DropCR(data[..r.advance - 1]))
    ensures LF !in data && r.advance > 0 ==> r.advance == |data| && r.token == Some(DropCR(data))
  {
    if atEOF && |data| == 0 then Split(0, None)
    else
      var i := IndexByte(data, LF);
      if i >= 0 then Split(i + 1, Some(DropCR(data[..i])))
      else if atEOF then Split(|data|, Some(DropCR(data)))
      else Split(0, None)
  }

  /** What a call of the split rule as written does: return a result, or
      panic because a slice expression has its low bound above its high one. */
  datatype Outcome = Returned(split: Split) | SlicePanic

  /** The carriage-return rule as written: the offset of the second '\r' is
      taken inside `data[first + 1..]` but used as an index into `data`. */
  function CarriageReturnSplitAsWritten(data: Bytes, atEOF: bool): (r: Outcome)
    ensures atEOF || ScanLines(data, atEOF).advance > 0 ==> r == Returned(ScanLines(data, atEOF))
    ensures !atEOF && ScanLines(data, atEOF).advance == 0 && (IndexByte(data, CR) < 0 || |data| <= 1) ==>
      r == Returned(Split(0, None))
    ensures
      var f := IndexByte(data, CR);
      !atEOF && ScanLines(data, atEOF).advance == 0 && f >= 0 && |data| > 1 ==> r == CutAsWritten(data, f)
  {
    var s := ScanLines(data, atEOF);
    if !atEOF && s.advance == 0 then
      var f := IndexByte(data, CR);
      if f >= 0 && |data| > 1 then CutAsWritten(data, f)
      else Returned(s)
    else Returned(s)
  }

  /** The cut after the '\r' at `f` as written: the offset `n` of the next
      '\r' after it is used as an index into the whole of `data`. */
  function CutAsWritten(data: Bytes, f: nat): (r: Outcome)
    requires f < |data|
    ensures
      var n := IndexByte(data[f + 1..], CR);
      && (n == -1 ==> r == Returned(Split(|data|, Some(data[f + 1..]))))
      && (n >= 0 && f <= n ==> r == Returned(Split(n + 1, Some(data[f + 1..n + 1]))))
      && (n >= 0 && n < f <==> r == SlicePanic)
    ensures r.Returned? ==> 0 <= r.split.advance <= |data|
  {
    var n := IndexByte(data[f + 1..], CR);
    if n == -1 then Returned(Split(|data|, Some(data[f + 1..])))
    else if f + 1 <= n + 1 then Returned(Split(n + 1, Some(data[f + 1..n + 1])))
    else SlicePanic
  }

  /** The buffer "ab\r\r", not at EOF, makes the rule as written panic; and
      "x\rab\r" yields the token "a" instead of "ab", the bytes between the
      two carriage returns. */
  lemma AsWrittenMisplacesSecondCR()
    ensures CarriageReturnSplitAsWritten([97, 98, CR, CR], false) == SlicePanic
    ensures CarriageReturnSplitAsWritten([120, CR, 97, 98, CR], false) == Returned(Split(3, Some([97])))
  {
    var d1: Bytes := [97, 98, CR, CR];
    assert d1[0] != CR && d1[1] != CR && d1[2] == CR;
    assert IndexByte(d1, CR) == 2;
    assert d1[3..] == [CR];
    assert IndexByte(d1[3..], CR) == 0;
    assert LF !in d1;
    assert CutAsWritten(d1, 2) == SlicePanic;
    var d2: Bytes := [120, CR, 97, 98, CR];
    assert d2[0] != CR && d2[1] == CR;
    assert IndexByte(d2, CR) == 1;
    assert d2[2..] == [97, 98, CR];
    assert d2[2..][0] != CR && d2[2..][1] != CR && d2[2..][2] == CR;
    assert IndexByte(d2[2..], CR) == 2;
    assert d2[2..3] == [97];
    assert LF !in d2;
    assert CutAsWritten(d2, 1) == Returned(Split(3, Some([97])));
  }

  /** The carriage-return rule with the second '\r' located in `data`
      itself: the token is the bytes strictly between the first and the
      next '\r', and the scan resumes at that next '\r'. */
  function CarriageReturnSplit(data: Bytes, atEOF: bool): (r: Split)
    ensures atEOF || ScanLines(data, atEOF).advance > 0 ==> r == ScanLines(data, atEOF)
    ensures !atEOF && ScanLines(data, atEOF).advance == 0 && (IndexByte(data, CR) < 0 || |data| <= 1) ==>
      r == Split(0, None)
    ensures 0 <= r.advance <= |data|
    ensures
      var f := IndexByte(data, CR);
      !atEOF && ScanLines(data, atEOF).advance == 0 && f >= 0 && |data| > 1 ==>
      && r.advance > f
      && r.token == Some(data[f + 1..r.advance])
      && CR !in data[f + 1..r.advance]
      && (r.advance < |data| ==> data[r.advance] == CR)
  {
    var s := ScanLines(data, atEOF);
    if !atEOF && s.advance == 0 then
      var f := IndexByte(data, CR);
      if f >= 0 && |data| > 1 then CutAtCR(data, f)
      else s
    else s
  }

  /** The cut after the '\r' at `f`: the token is everything up to the next
      '\r', or to the end of the data when there is none. */
  function CutAtCR(data: Bytes, f: nat): (r: Split)
    requires f < |data|
    ensures f < r.advance <= |data|
    ensures r.token == Some(data[f + 1..r.advance])
    ensures CR !in data[f + 1..r.advance]
    ensures r.advance < |data| ==> data[r.advance] == CR
  {
    var n := IndexByte(data[f + 1..], CR);
    if n == -1 then
      assert data[f + 1..] == data[f + 1..|data|];
      Split(|data|, Some(data[f + 1..]))
    else
      assert data[f + 1..][n] == data[f + 1 + n];
      assert data[f + 1..][..n] == data[f + 1..f + 1 + n];
      Split(f + 1 + n, Some(data[f + 1..f + 1 + n]))
  }

  /** Where the data begins with '\r' (as it does after every token the
      rule cuts at a second '\r'), the rule as written agrees with the
      corrected one. */
  lemma AsWrittenAgreesAfterLeadingCR(data: Bytes, atEOF: bool)
    requires |data| > 0 && data[0] == CR
    ensures CarriageReturnSplitAsWritten(data, atEOF) == Returned(CarriageReturnSplit(data, atEOF))
  {
    assert IndexByte(data, CR) == 0;
  }
}
