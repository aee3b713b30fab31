/** Incremental request framing of core/inet/tinyhttpd.cpp. Extracting Content-Length from
    the header text and judging the request line are functions of the header bytes. */
module RequestFraming {
  import opened Bytes

  const CR: byte := 13
  const LF: byte := 10
  const SIZE_MAX: nat := 100 * 1024 * 1024

  type int32 = x: int | -0x8000_0000 <= x < 0x8000_0000

  /** `contentLength` is what atoi makes of the header field, if there is one. */
  datatype Rules = Rules(contentLength: seq<byte> -> Option<int32>, legal: seq<byte> -> bool)

  /** HTTP_FALSE, HTTP_FAIL, HTTP_OUTOFMEMORY, HTTP_INVALIDARG and HTTP_OK, the last with
      the positions of the body. */
  datatype Outcome = NeedMore | Fail | OutOfMemory | Invalid | Ok(bodyStart: nat, bodyEnd: nat)

  predicate EndTagAt(s: seq<byte>, i: int) {
    0 <= i && i + 4 <= |s| && s[i..i + 4] == [CR, LF, CR, LF]
  }

  predicate Supported(s: seq<byte>)
    requires |s| >= 4
  {
    s[..4] == [71, 69, 84, 32] || s[..4] == [80, 79, 83, 84]   // "GET ", "POST"
  }

  /** The first end tag at or after `from`, or -1. */
  function FirstEnd(s: seq<byte>, from: nat): (e: int)
    ensures e == -1 || (from <= e && EndTagAt(s, e))
    ensures forall i :: from <= i && (e == -1 || i < e) ==> !EndTagAt(s, i)
    decreases |s| - from
  {
    if from + 4 > |s| then -1 else if EndTagAt(s, from) then from else FirstEnd(s, from + 1)
  }

  // ----- what a request is, read in one go

  function Judge(rules: Rules, header: seq<byte>, start: nat, end: nat): Outcome {
    if rules.legal(header) then Ok(start, end) else Invalid
  }

  /** _RecvBufUsedExpected: a negative sum wraps around. */
  function Expected(h: nat, n: int32): nat
    requires h + n >= -0x8000_0000
  {
    if h + n >= 0 then h + n else h + n + WORD
  }

  /** The outcome for a prefix of the stream, as if it had arrived in one piece. */
  function Frame(rules: Rules, s: seq<byte>): Outcome {
    if |s| <= 4 then NeedMore
    else if !Supported(s) then Fail
    else
      var e := FirstEnd(s, 0);
      if e < 0 then (if |s| < SIZE_MAX then NeedMore else Fail)
      else
        match rules.contentLength(s[..e + 2])
        case None => Judge(rules, s[..e + 2], e + 4, e + 4)
        case Some(n) =>
          if n > SIZE_MAX then OutOfMemory
          else if |s| >= Expected(e + 4, n) then Judge(rules, s[..e + 2], e + 4, Expected(e + 4, n))
          else NeedMore
  }

  // ----- the connection

  class Connection {
    const rules: Rules
    var buf: seq<byte>          // _RecvBuf up to _RecvBufUsed
    var expected: nat           // _RecvBufUsedExpected, 0 until the header is complete
    var headerSize: nat
    ghost var stream: seq<byte> // the bytes as received

    constructor (rules: Rules)
      ensures this.rules == rules && Waiting() && stream == []
    {
      this.rules := rules;
      buf, expected, headerSize, stream := [], 0, 0, [];
    }

    /** Every call so far asked for more data, and the fields say why. */
    ghost predicate Waiting()
      reads this
    {
      && Frame(rules, stream) == NeedMore
      && (if expected == 0 then buf == stream && (|stream| > 4 ==> FirstEnd(stream, 0) == -1)
          else
            && |stream| > 4 && Supported(stream)
            && 4 <= headerSize <= |stream| < expected && buf == stream[headerSize - 2 := 0]
            && FirstEnd(stream, 0) == headerSize - 4
            && var cl := rules.contentLength(stream[..headerSize - 2]);
               cl.Some? && cl.value <= SIZE_MAX && Expected(headerSize, cl.value) == expected)
    }

    /** The body of an accepted request is where the stream has it, unless it ends before it
        starts. */
    ghost predicate BodyInPlace(outcome: Outcome)
      reads this
    {
      outcome.Ok? && outcome.bodyStart <= outcome.bodyEnd ==>
        && outcome.bodyEnd <= |buf| == |stream|
        && buf[outcome.bodyStart..outcome.bodyEnd] == stream[outcome.bodyStart..outcome.bodyEnd]
    }

    /** A read of the socket followed by OnDataRecv: the outcome is that of all the bytes
        received, whatever pieces they came in. */
    method Receive(piece: seq<byte>) returns (outcome: Outcome)
      requires Waiting()
      modifies this
      ensures stream == old(stream) + piece && outcome == Frame(rules, stream)
      ensures outcome == NeedMore ==> Waiting()
      ensures BodyInPlace(outcome)
    {
      if expected != 0 {
        outcome := Continue(piece);
      } else {
        ghost var before := stream;
        buf := buf + piece;
        stream := stream + piece;
        outcome := Scan(|piece|, before);
      }
    }

    /** OnDataRecv while a body is incomplete. */
    method Continue(piece: seq<byte>) returns (outcome: Outcome)
      requires Waiting() && expected != 0
      modifies this`buf, this`stream
      ensures stream == old(stream) + piece && outcome == Frame(rules, stream)
      ensures outcome == NeedMore ==> Waiting()
      ensures BodyInPlace(outcome) && (outcome.Ok? ==> outcome.bodyStart <= outcome.bodyEnd)
    {
      hide Frame, FirstEnd, Judge, Supported;
      FrameKnown(rules, stream, piece, headerSize, expected);
      buf := buf + piece;
      stream := stream + piece;
      assert buf == stream[headerSize - 2 := 0];
      if |buf| >= expected {
        assert buf[..headerSize - 2] == stream[..headerSize - 2];
        OkMeans(rules, buf[..headerSize - 2], headerSize, expected);
        outcome := Judge(rules, buf[..headerSize - 2], headerSize, expected);
      } else {
        outcome := NeedMore;
      }
    }

    /** The part of OnDataRecv that runs while the header is incomplete. */
    method Scan(newly: nat, ghost before: seq<byte>) returns (outcome: Outcome)
      requires expected == 0 && buf == stream && newly <= |stream| && before == stream[..|stream| - newly]
      requires Frame(rules, before) == NeedMore && (|before| > 4 ==> FirstEnd(before, 0) == -1)
      modifies this`buf, this`expected, this`headerSize
      ensures outcome == Frame(rules, stream)
      ensures outcome == NeedMore ==> Waiting()
      ensures BodyInPlace(outcome)
    {
      if |buf| <= 4 { return NeedMore; }
      if !Supported(buf) { return Fail; }
      var i := 0;
      if newly + 3 < |buf| { i := |buf| - (newly + 3); }
      OverlapSuffices(before, stream, i);
      while i + 3 < |buf|
        invariant i <= |buf| && buf == stream && expected == 0
        invariant FirstEnd(stream, 0) == FirstEnd(stream, i)
      {
        if EndTagAt(buf, i) {
          outcome := HeaderComplete(i);
          return;
        }
        i := i + 1;
      }
      outcome := if |buf| < SIZE_MAX then NeedMore else Fail;
    }

    method HeaderComplete(i: nat) returns (outcome: Outcome)
      requires expected == 0 && buf == stream && |stream| > 4 && Supported(stream)
      requires EndTagAt(stream, i) && FirstEnd(stream, 0) == i
      modifies this`buf, this`expected, this`headerSize
      ensures outcome == Frame(rules, stream)
      ensures outcome == NeedMore ==> Waiting()
      ensures BodyInPlace(outcome)
    {
      buf := buf[i + 2 := 0];
      headerSize := i + 4;
      var header := buf[..i + 2];
      assert header == stream[..i + 2];
      match rules.contentLength(header)
      case None =>
        expected := headerSize;
        outcome := Judge(rules, header, headerSize, expected);
      case Some(n) =>
        if n > SIZE_MAX { return OutOfMemory; }
        expected := Expected(headerSize, n);
        outcome := if |buf| >= expected then Judge(rules, header, headerSize, expected) else NeedMore;
    }
  }

  /** Everything before the three-byte overlap was searched by earlier calls, or is the verb. */
  lemma OverlapSuffices(before: seq<byte>, s: seq<byte>, i: nat)
    requires before <= s && |s| > 4 && Supported(s) && (|before| > 4 ==> FirstEnd(before, 0) == -1)
    requires i == 0 || i + 3 == |before|
    ensures FirstEnd(s, 0) == FirstEnd(s, i)
  {
    forall j | 0 <= j < i
      ensures !EndTagAt(s, j)
    {
      if |before| > 4 {
        assert j + 4 <= |before| && s[j..j + 4] == before[j..j + 4];
        assert !EndTagAt(before, j);
      } else {
        assert j == 0 && s[0..4] == s[..4];
      }
    }
    SkipClean(s, 0, i);
  }

  lemma {:induction false} SkipClean(s: seq<byte>, a: nat, b: nat)
    requires a <= b && forall j :: a <= j < b ==> !EndTagAt(s, j)
    ensures FirstEnd(s, a) == FirstEnd(s, b)
    decreases b - a
  {
    if a < b { SkipClean(s, a + 1, b); }
  }

  /** A header that was complete stays complete. */
  lemma HeaderKnown(before: seq<byte>, piece: seq<byte>, h: nat)
    requires 4 <= h <= |before| && FirstEnd(before, 0) == h - 4
    ensures FirstEnd(before + piece, 0) == h - 4
  {
    var s := before + piece;
    forall j | 0 <= j < h - 4
      ensures !EndTagAt(s, j)
    {
      assert s[j..j + 4] == before[j..j + 4];
      assert !EndTagAt(before, j);
    }
    assert s[h - 4..h] == before[h - 4..h];
    SkipClean(s, 0, h - 4);
  }

  lemma OkMeans(rules: Rules, header: seq<byte>, start: nat, end: nat)
    ensures Judge(rules, header, start, end).Ok? ==> Judge(rules, header, start, end) == Ok(start, end)
    ensures Judge(rules, header, start, end) != NeedMore
  {
  }

  lemma FrameKnown(rules: Rules, before: seq<byte>, piece: seq<byte>, h: nat, expected: nat)
    requires |before| > 4 && Supported(before) && 4 <= h <= |before| < expected
    requires FirstEnd(before, 0) == h - 4
    requires var cl := rules.contentLength(before[..h - 2]);
             cl.Some? && cl.value <= SIZE_MAX && Expected(h, cl.value) == expected
    ensures var s := before + piece;
            && |s| > 4 && Supported(s) && FirstEnd(s, 0) == h - 4 && s[..h - 2] == before[..h - 2]
            && Frame(rules, s) == if |s| >= expected then Judge(rules, s[..h - 2], h, expected) else NeedMore
  {
    var s := before + piece;
    HeaderKnown(before, piece, h);
    assert s[..4] == before[..4] && s[..h - 2] == before[..h - 2];
  }

  // ----- what Frame says of whole requests

  /** The header of `s` is its first `h` bytes: a supported verb, and the first CR LF CR LF at
      the end. */
  predicate HeaderOf(s: seq<byte>, h: nat) {
    && 4 <= h <= |s| && (s[..4] == [71, 69, 84, 32] || s[..4] == [80, 79, 83, 84])
    && s[h - 4..h] == [13, 10, 13, 10]
    && forall j :: 0 <= j < h - 4 ==> !(s[j] == 13 && s[j + 1] == 10 && s[j + 2] == 13 && s[j + 3] == 10)
  }

  /** For a request whose header of `h` bytes ends within the limit, every prefix of the stream:
      more is asked for until the header and `n` bytes of Content-Length are there, and then
      the body is always the same `n` bytes (section 3.3.3 of RFC 7230). A request line that
      is not legal is told at that point. Too large a length is refused at the end of the
      header; a negative one ends the body before it starts, or, beyond the header, 2^32 bytes
      later. */
  lemma CompleteExactly(rules: Rules, s: seq<byte>, h: nat, k: nat)
    requires HeaderOf(s, h) && h <= 104857600 && k <= |s|
    ensures var cl := rules.contentLength(s[..h - 2]);
            var legal := rules.legal(s[..h - 2]);
            && (k < h ==> Frame(rules, s[..k]) == NeedMore)
            && (k >= h && cl.None? ==> Frame(rules, s[..k]) == if legal then Ok(h, h) else Invalid)
            && (k >= h && cl.Some? && cl.value > 104857600 ==> Frame(rules, s[..k]) == OutOfMemory)
            && (k >= h && cl.Some? && 0 <= cl.value <= 104857600 ==>
                  Frame(rules, s[..k]) ==
                    if k < h + cl.value then NeedMore else if legal then Ok(h, h + cl.value) else Invalid)
            && (k >= h && cl.Some? && cl.value < 0 <= h + cl.value ==>
                  Frame(rules, s[..k]) == if legal then Ok(h, h + cl.value) else Invalid)
            && (k >= h && cl.Some? && h + cl.value < 0 ==>
                  Frame(rules, s[..k]) ==
                    if k < h + cl.value + 4294967296 then NeedMore
                    else if legal then Ok(h, h + cl.value + 4294967296) else Invalid)
  {
    hide FirstEnd, Frame, Expected;
    HeaderFirst(s, h);
    VerbIsNoBreak(s);
    if k >= h { PrefixFrame(rules, s, h, k); } else { NoHeaderInPrefix(rules, s, k); }
  }

  lemma HeaderFirst(s: seq<byte>, h: nat)
    requires HeaderOf(s, h)
    ensures |s| >= 4 && Supported(s) && FirstEnd(s, 0) == h - 4
  {
    hide FirstEnd;
    forall j | 0 <= j < h - 4
      ensures !EndTagAt(s, j)
    {
      BlankLine(s, j);
    }
    SkipClean(s, 0, h - 4);
    EndAt(s, h - 4);
  }

  lemma BlankLine(s: seq<byte>, j: nat)
    ensures EndTagAt(s, j) ==> s[j] == 13 && s[j + 1] == 10 && s[j + 2] == 13 && s[j + 3] == 10
  {
    if EndTagAt(s, j) {
      var t := s[j..j + 4];
      assert t[0] == s[j] && t[1] == s[j + 1] && t[2] == s[j + 2] && t[3] == s[j + 3];
    }
  }

  lemma EndAt(s: seq<byte>, e: nat)
    requires EndTagAt(s, e)
    ensures FirstEnd(s, e) == e
  {
  }

  lemma PrefixFrame(rules: Rules, s: seq<byte>, h: nat, k: nat)
    requires 5 <= h <= k <= |s| && Supported(s) && FirstEnd(s, 0) == h - 4
    ensures var cl := rules.contentLength(s[..h - 2]);
            && (cl.None? ==> Frame(rules, s[..k]) == Judge(rules, s[..h - 2], h, h))
            && (cl.Some? && cl.value > 104857600 ==> Frame(rules, s[..k]) == OutOfMemory)
            && (cl.Some? && cl.value <= 104857600 ==>
                  var end := if h + cl.value >= 0 then h + cl.value else h + cl.value + 4294967296;
                  Frame(rules, s[..k]) == if k >= end then Judge(rules, s[..h - 2], h, end) else NeedMore)
  {
    hide FirstEnd, EndTagAt, Supported;
    var p := s[..k];
    EndInPrefix(s, k);
    VerbInPrefix(s, k);
    assert p[..h - 2] == s[..h - 2];
  }

  lemma VerbInPrefix(s: seq<byte>, k: nat)
    requires 4 <= k <= |s| && Supported(s)
    ensures Supported(s[..k])
  {
    assert s[..k][..4] == s[..4];
  }

  /** Without a complete header: four bytes decide on the verb, and the limit on the rest. */
  lemma HeaderMissing(rules: Rules, s: seq<byte>)
    requires forall j :: 0 <= j < |s| - 3 ==> !(s[j] == 13 && s[j + 1] == 10 && s[j + 2] == 13 && s[j + 3] == 10)
    ensures |s| <= 4 ==> Frame(rules, s) == NeedMore
    ensures |s| > 4 && s[..4] != [71, 69, 84, 32] && s[..4] != [80, 79, 83, 84] ==> Frame(rules, s) == Fail
    ensures |s| > 4 && (s[..4] == [71, 69, 84, 32] || s[..4] == [80, 79, 83, 84]) ==>
              Frame(rules, s) == if |s| < 104857600 then NeedMore else Fail
  {
    hide FirstEnd;
    forall j | 0 <= j
      ensures !EndTagAt(s, j)
    {
      BlankLine(s, j);
    }
    SkipClean(s, 0, |s|);
    NoEndLeft(s);
  }

  lemma NoEndLeft(s: seq<byte>)
    ensures FirstEnd(s, |s|) == -1
  {
  }

  /** The body ends before it starts exactly when Content-Length is negative, by no more than
      the size of the header; the request is accepted all the same. */
  lemma BodyBackwardsIff(rules: Rules, s: seq<byte>, h: nat)
    requires HeaderOf(s, h) && h <= 104857600 && rules.legal(s[..h - 2])
    ensures var cl := rules.contentLength(s[..h - 2]);
            (Frame(rules, s).Ok? && Frame(rules, s).bodyEnd < Frame(rules, s).bodyStart) <==>
            cl.Some? && cl.value < 0 <= h + cl.value
  {
    hide Frame, HeaderOf;
    assert s[..|s|] == s;
    HeaderSize(s, h);
    CompleteExactly(rules, s, h, |s|);
  }

  lemma HeaderSize(s: seq<byte>, h: nat)
    requires HeaderOf(s, h)
    ensures 4 <= h <= |s|
  {
  }

  lemma NoHeaderInPrefix(rules: Rules, s: seq<byte>, k: nat)
    requires k <= |s| && |s| >= 4 && Supported(s) && k < FirstEnd(s, 0) + 4 <= SIZE_MAX
    ensures Frame(rules, s[..k]) == NeedMore
  {
    hide FirstEnd, EndTagAt;
    if k > 4 {
      assert s[..k][..4] == s[..4];
      NoEndInPrefix(s, k);
    }
  }

  lemma NoEndInPrefix(s: seq<byte>, k: nat)
    requires k <= |s| && k < FirstEnd(s, 0) + 4
    ensures FirstEnd(s[..k], 0) == -1
  {
    var p := s[..k];
    forall i | 0 <= i
      ensures !EndTagAt(p, i)
    {
      if i + 4 <= k { assert p[i..i + 4] == s[i..i + 4]; assert !EndTagAt(s, i); }
    }
  }

  lemma VerbIsNoBreak(s: seq<byte>)
    requires |s| >= 4 && Supported(s)
    ensures FirstEnd(s, 0) == -1 || FirstEnd(s, 0) >= 1
  {
    assert s[0..4] == s[..4];
  }

  lemma EndInPrefix(s: seq<byte>, k: nat)
    requires k <= |s| && 0 <= FirstEnd(s, 0) && FirstEnd(s, 0) + 4 <= k
    ensures FirstEnd(s[..k], 0) == FirstEnd(s, 0)
  {
    var e, p := FirstEnd(s, 0), s[..k];
    assert p[e..e + 4] == s[e..e + 4];
    forall j | 0 <= j < e
      ensures !EndTagAt(p, j)
    {
      assert p[j..j + 4] == s[j..j + 4];
      assert !EndTagAt(s, j);
    }
    SkipClean(p, 0, e);
  }
}
