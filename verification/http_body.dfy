/** Receiving a response body in core/inet/http_client.cpp. The socket is the sequence of
    bytes still to come; each receive takes any nonempty piece of it, or fails. */
module HttpBody {
  import opened Bytes
  import Arith

  const CR: byte := 13
  const LF: byte := 10

  // ----- chunked framing (section 4.1 of RFC 7230)

  predicate IsHexDigit(b: byte) { 48 <= b <= 57 || 65 <= b <= 70 || 97 <= b <= 102 }

  function Digit(b: byte): nat
    requires IsHexDigit(b)
  {
    if b <= 57 then b - 48 else if b <= 70 then b - 55 else b - 87
  }

  predicate AllHex(line: seq<byte>) { forall i :: 0 <= i < |line| ==> IsHexDigit(line[i]) }
  predicate IsHex(line: seq<byte>) { line != [] && AllHex(line) }

  function HexValue(line: seq<byte>): nat
    requires AllHex(line)
  {
    if line == [] then 0 else 16 * HexValue(line[..|line| - 1]) + Digit(line[|line| - 1])
  }

  // The digits "0123456789abcdef" and "0123456789ABCDEF".
  const LOWER: seq<byte> := [48, 49, 50, 51, 52, 53, 54, 55, 56, 57, 97, 98, 99, 100, 101, 102]
  const UPPER: seq<byte> := [48, 49, 50, 51, 52, 53, 54, 55, 56, 57, 65, 66, 67, 68, 69, 70]

  /** `line` is `n` in hexadecimal, in letters of either case, with any leading zeros: its last
      digit is the remainder by 16 and the digits before it are the quotient. */
  predicate Writes(line: seq<byte>, n: nat) {
    && line != []
    && (line[|line| - 1] == LOWER[n % 16] || line[|line| - 1] == UPPER[n % 16])
    && (if |line| == 1 then n < 16 else Writes(line[..|line| - 1], n / 16))
  }

  /** The shortest such line. */
  function Printed(n: nat): seq<byte> {
    if n < 16 then [LOWER[n]] else Printed(n / 16) + [LOWER[n % 16]]
  }

  lemma {:induction false} PrintedWrites(n: nat)
    ensures Writes(Printed(n), n)
  {
    if n >= 16 {
      PrintedWrites(n / 16);
      assert Printed(n)[..|Printed(n)| - 1] == Printed(n / 16);
    }
  }

  lemma DigitsRead(b: byte, d: nat)
    requires d < 16
    ensures b == LOWER[d] || b == UPPER[d] <==> IsHexDigit(b) && Digit(b) == d
  {
  }

  /** Reading a size line: the value is what the line writes, and nothing else is. */
  lemma {:induction false} HexValueIff(line: seq<byte>, n: nat)
    ensures Writes(line, n) <==> IsHex(line) && HexValue(line) == n
  {
    if line != [] {
      var k := |line| - 1;
      var front := line[..k];
      DigitsRead(line[k], n % 16);
      assert IsHex(line) <==> IsHexDigit(line[k]) && AllHex(front);
      if k > 0 { HexValueIff(front, n / 16); }
      if IsHexDigit(line[k]) && AllHex(front) { LastDigit(HexValue(front), Digit(line[k]), n); }
    }
  }

  lemma LastDigit(h: nat, d: nat, n: nat)
    requires d < 16
    ensures 16 * h + d == n <==> h == n / 16 && d == n % 16
  {
  }

  /** A chunk: its size line as sent, and its payload. */
  datatype Chunk = Chunk(line: seq<byte>, payload: seq<byte>)

  predicate WellFormed(c: Chunk) { c.payload != [] && Writes(c.line, |c.payload|) }

  function Payloads(cs: seq<Chunk>): seq<byte> {
    if cs == [] then [] else cs[0].payload + Payloads(cs[1..])
  }

  /** The bytes on the wire, closed by a last line of value 0. */
  function Wire(cs: seq<Chunk>, last: seq<byte>, rest: seq<byte>): seq<byte> {
    if cs == [] then last + [CR, LF] + rest
    else cs[0].line + [CR, LF] + (cs[0].payload + [CR, LF] + Wire(cs[1..], last, rest))
  }

  // ----- strstr for CR LF

  /** Does `t` contain CR LF at `i`, with no zero byte up to there? */
  predicate FirstBreakAt(t: seq<byte>, i: nat) {
    && i + 1 < |t| && t[i] == CR && t[i + 1] == LF && (forall j :: 0 <= j < i ==> t[j] != 0)
    && forall j :: 0 <= j < i ==> !(t[j] == CR && t[j + 1] == LF)
  }

  method FindBreak(t: seq<byte>) returns (found: bool, i: nat)
    ensures found ==> FirstBreakAt(t, i)
    ensures !found ==> forall j: nat :: !FirstBreakAt(t, j)
  {
    i := 0;
    while i + 1 < |t|
      invariant i <= |t| && (forall j :: 0 <= j < i ==> t[j] != 0)
      invariant forall j :: 0 <= j < i && j + 1 < |t| ==> !(t[j] == CR && t[j + 1] == LF)
    {
      if t[i] == CR && t[i + 1] == LF { return true, i; }
      if t[i] == 0 { return false, i; }
      i := i + 1;
    }
    found := false;
  }

  /** A plain line followed by CR LF has its first break at its end. */
  lemma LineBreak(line: seq<byte>, r: seq<byte>, n: nat, stale: seq<byte>)
    requires AllHex(line) && |line| + 2 <= n <= |line| + 2 + |r|
    ensures var t := (line + [CR, LF] + r)[..n] + stale;
            FirstBreakAt(t, |line|) && forall i: nat :: FirstBreakAt(t, i) ==> i == |line|
  {
    var t := (line + [CR, LF] + r)[..n] + stale;
    assert forall j :: 0 <= j < |line| ==> t[j] == line[j];
    assert t[|line|] == CR && t[|line| + 1] == LF;
  }

  /** Neither does a part of such a line that stops before its LF, even when followed by
      the two bytes left over behind it in the buffer. */
  lemma NoBreakYet(line: seq<byte>, r: seq<byte>, n: nat, stale: seq<byte>)
    requires AllHex(line) && 2 <= n < |line| + 2
    requires var t := (line + [CR, LF] + r)[..n]; stale == [] || stale == t[n - 2..]
    ensures var t := (line + [CR, LF] + r)[..n]; forall i: nat :: !FirstBreakAt(t + stale, i)
  {
    var t := (line + [CR, LF] + r)[..n];
    assert forall j :: 0 <= j < n ==> t[j] == if j < |line| then line[j] else CR;
    assert forall j :: 0 <= j < n ==> t[j] != LF;
    assert forall j :: 0 <= j < |stale| ==> stale[j] == t[n - 2 + j];
    assert forall j :: 0 <= j < |t + stale| ==> (t + stale)[j] != LF;
  }

  // ----- positions

  /** The sum passed to _RecvUpTo, a UINT. */
  function EndPosition(at: nat, length: nat): (e: nat)
    ensures e < WORD
  {
    (at + length) % WORD
  }

  lemma EndPositionIff(at: nat, length: nat)
    requires at < WORD && length < WORD
    ensures at <= EndPosition(at, length) <==> at + length < WORD
    ensures EndPosition(at, length) == if at + length < WORD then at + length else at + length - WORD
  {
    var n := if at + length < WORD then 0 else 1;
    Arith.DivModUnique(at + length, WORD, n, at + length - n * WORD);
  }

  /** The two sizes for which the sum with the CR LF alone wraps. */
  lemma EndPositionLarge(at: nat, size: nat)
    requires at < WORD && WORD <= size + 2 < WORD + 2
    ensures EndPosition(at, size + 2) == (at + size + 2 - WORD) % WORD
    ensures size + 2 == WORD ==> EndPosition(at, size + 2) == at
  {
    Arith.ModShift(at + size + 2 - WORD, WORD, 1);
  }

  // ----- the session

  class Session {
    var data: seq<byte>        // what the receive buffer holds
    var stale: seq<byte>       // bytes behind it, before the terminating zero
    var poolSize: nat
    var parsed: nat            // counted from the first byte received
    var removed: nat           // bytes of the response taken out by the data callback
    const start: nat           // _ResponseStart
    var incoming: seq<byte>
    ghost var taken: seq<byte> // what the callback took, in order
    const reliable: bool       // nobody times out, breaks the connection, cancels or stops
    ghost var broken: bool     // somebody did

    constructor (data: seq<byte>, start: nat, poolSize: nat, incoming: seq<byte>, reliable: bool)
      requires 2 <= start <= |data| && |data| + |incoming| < WORD
      ensures this.data == data && this.start == start && this.incoming == incoming && this.reliable == reliable
      ensures Valid() && parsed == start && removed == 0 && taken == [] && stale == [] && !broken
    {
      this.data, this.start, this.poolSize, this.incoming := data, start, poolSize, incoming;
      this.reliable, broken := reliable, false;
      parsed, removed, stale, taken := start, 0, [], [];
    }

    /** Positions are counted from the first byte of the connection, in 32 bits; what is
        received and still to come has a position. */
    ghost predicate Valid()
      reads this
    {
      && start + removed <= parsed <= |data| + removed && |data| + removed + |incoming| < WORD
      && (reliable ==> !broken)
    }

    /** GetResponseLength. */
    function ResponseLength(): nat
      reads this
    {
      (parsed - start - removed) % WORD
    }

    function Response(): seq<byte>
      requires Valid()
      reads this
    {
      data[start..parsed - removed]
    }

    /** The one place where the environment acts up: a time-out, a socket error, a callback
        that cancels or stops. */
    method Disturbed() returns (yes: bool)
      modifies this`broken
      ensures reliable ==> !yes
      ensures broken == (old(broken) || yes)
    {
      yes := false;
      if !reliable {
        if * {
          broken := true;
          yes := true;
        }
      }
    }

    /** Growing the buffer if need be, then one receive of at least one byte. */
    method Receive() returns (ok: bool)
      modifies this`data, this`incoming, this`poolSize, this`stale, this`broken
      ensures (old(broken) ==> broken) && (reliable ==> broken == old(broken))
      ensures !ok ==> broken || incoming == []
      ensures ok ==> old(data) < data && data + incoming == old(data) + old(incoming) && stale == []
      ensures ok ==> |incoming| < |old(incoming)|
      ensures !ok ==> data == old(data) && incoming == old(incoming) && stale == old(stale)
    {
      if poolSize <= |data| + 1 {
        poolSize := if 2 * poolSize > |data| + 2048 then 2 * poolSize else |data| + 2048;
      }
      if incoming == [] { return false; }
      var failed := Disturbed();   // time-out or socket error
      if failed { return false; }
      var k :| 1 <= k <= |incoming| && k <= poolSize - |data| - 1;
      data := data + incoming[..k];
      incoming := incoming[k..];
      stale := [];
      ok := true;
    }

    /** ProbeDataCB: the callback may take any prefix of the response, or cancel. */
    method Probe() returns (go: bool)
      requires Valid()
      modifies this`data, this`removed, this`taken, this`stale, this`broken
      ensures (old(broken) ==> broken) && (!go ==> broken)
      ensures Valid() && |data| >= start && data[..start] == old(data[..start])
      ensures taken + data[start..] == old(taken) + old(data)[start..]
      ensures |taken| - removed == old(|taken| - removed) && |data| + removed == old(|data| + removed)
    {
      var length := parsed - start - removed;
      var remove: int :| 0 <= remove <= length;
      var cancelled := Disturbed();
      if cancelled { remove := -1; }
      go := remove != -1;
      if remove > 0 {
        ghost var d := data;
        taken := taken + data[start..start + remove];
        stale := data[|data| - remove..] + stale;
        data := data[..start] + data[start + remove..];
        removed := removed + remove;
        assert d[start..] == d[start..start + remove] + d[start + remove..];
        assert data[start..] == d[start + remove..];
      }
    }

    /** Everything received or still to come after the header, in order. */
    ghost function All(): seq<byte>
      requires start <= |data|
      reads this
    {
      taken + data[start..] + incoming
    }

    /** One round of the loop of _RecvUpTo. */
    method RecvMore(size: nat, probing: bool) returns (go: bool)
      requires Valid() && parsed <= size
      modifies this`data, this`stale, this`poolSize, this`parsed, this`removed, this`incoming, this`taken, this`broken
      ensures Valid() && old(parsed) <= parsed <= size && All() == old(All())
      ensures |taken| - removed == old(|taken| - removed)
      ensures old(broken) ==> broken
      ensures !go ==> broken || (incoming == [] && |data| + removed == old(|data| + removed))
      ensures !probing ==> removed == old(removed) && taken == old(taken) && old(data) <= data
      ensures go ==> |incoming| < |old(incoming)|
    {
      ghost var d, inc := data, incoming;
      go := Receive();
      if !go { return; }
      Regroup(taken, d, inc, data, incoming, start);
      var used := |data| + removed;
      parsed := if used < size then used else size;
      if probing { go := Probe(); }
      var stopped := Disturbed();   // by the event callback
      if stopped { go := false; }
    }

    /** _RecvUpTo: fill the buffer to `size` bytes counted from the first one received. When
        they are there it succeeds at once; a `size` behind the parsing takes the parsing back. */
    method RecvUpTo(size: nat, probing: bool) returns (ok: bool)
      requires Valid() && size < WORD
      modifies this`data, this`stale, this`poolSize, this`parsed, this`removed, this`incoming, this`taken, this`broken
      ensures old(broken) ==> broken
      ensures size <= old(|data| + removed) ==>
                && ok && parsed == size && stale == [] && Untouched(old(data), old(incoming))
                && removed == old(removed) && taken == old(taken) && broken == old(broken)
      ensures size >= old(parsed) ==>
                && Valid() && parsed >= old(parsed) && All() == old(All())
                && |taken| - removed == old(|taken| - removed)
                && (!ok ==> broken || (incoming == [] && |data| + removed < size))
                && (ok ==> parsed == size && stale == [] && size <= |data| + removed)
                && (!probing ==> removed == old(removed) && taken == old(taken) && old(data) <= data)
    {
      if |data| + removed >= size {   // the loop is not entered
        stale := [];
        parsed := size;
        return true;
      }
      while |data| + removed < size
        invariant Valid() && old(parsed) <= parsed <= size && All() == old(All())
        invariant |taken| - removed == old(|taken| - removed) && (old(broken) ==> broken)
        invariant !probing ==> removed == old(removed) && taken == old(taken) && old(data) <= data
        decreases |incoming|
      {
        var go := RecvMore(size, probing);
        if !go { return false; }
      }
      stale := [];
      parsed := size;
      ok := true;
    }

    ghost predicate Untouched(d: seq<byte>, inc: seq<byte>)
      reads this
    {
      data == d && incoming == inc
    }

    /** A body of known length: what the callback took followed by what is left in the
        buffer is the body, however it arrived and whatever was taken when, exactly as long as
        the end of the body has a 32-bit position. Beyond that the transfer succeeds at once,
        with nothing received and a response of the full length. */
    method ReceiveContent(length: nat) returns (ok: bool)
      requires Valid() && parsed == start && removed == 0 && taken == [] && length < WORD
      modifies this
      ensures start + length < WORD ==>
                var body := old(data)[start..] + old(incoming);
                && Valid()
                && (ok ==> length <= |body| && taken + Response() == body[..length])
                && (!ok ==> broken || length > |body|)
                && (reliable ==> (ok <==> length <= |body|))
      ensures start + length >= WORD ==>
                && ok && Untouched(old(data), old(incoming)) && taken == [] && parsed < start
                && ResponseLength() == length > |old(data)[start..] + old(incoming)|
      ensures start + length >= WORD <==> ok && length > |old(data)[start..] + old(incoming)|
    {
      var end := EndPosition(start, length);
      EndPositionIff(start, length);
      ghost var body := data[start..] + incoming;
      ok := RecvUpTo(end, true);
      // behind the end of the stream ProbeDataCB shows the callback a null pointer: not modelled
      if end < start {
        assert (parsed - start - removed) % WORD == (length - WORD) % WORD == length;
        return;
      }
      assert All() == [] + old(data)[start..] + old(incoming) == body;
      if ok { LastProbe(length, body); }
    }

    /** The end of ReceiveContent: GetResponse's last call of the callback. */
    method LastProbe(length: nat, ghost body: seq<byte>)
      requires Valid() && parsed == start + length && parsed <= |data| + removed && |taken| == removed
      requires All() == body
      modifies this`data, this`removed, this`taken, this`stale, this`broken
      ensures Valid() && (old(broken) ==> broken)
      ensures length <= |body| && taken + Response() == body[..length]
    {
      ghost var t := taken + data[start..];
      assert t + incoming == body;
      assert body[..length] == t[..length];
      assert t[..length] == taken + data[start..parsed - removed];
      if ResponseLength() != 0 {
        ghost var p := taken + Response();
        var go := Probe();
        ProbedLast(p, t, taken, data, start, length);
      }
    }

    // ----- chunked bodies, with no removal by the callback

    /** Text searched next: what is unparsed, and what strstr sees behind it. */
    predicate StaleOk()
      reads this
    {
      stale == [] || |data| < parsed + 2 || stale == data[|data| - 2..]
    }

    /** The strstr of _RecvUntil: it finds the end of the line exactly when it is there. */
    method SearchBreak(ghost line: seq<byte>, ghost r: seq<byte>, ghost p0: nat) returns (found: bool, i: nat)
      requires AllHex(line) && p0 <= parsed <= p0 + |line| && parsed + 2 <= |data|
      requires stale == [] || stale == data[|data| - 2..]
      requires data[p0..] + incoming == line + [CR, LF] + r
      ensures found <==> p0 + |line| + 2 <= |data|
      ensures found ==> parsed + i == p0 + |line|
    {
      hide FirstBreakAt, AllHex;
      ghost var q, n := parsed - p0, |data| - parsed;
      SuffixLine(line, r, q, data[p0..], incoming);
      assert data[p0..][q..] == data[parsed..];
      assert data[parsed..][n - 2..] == data[|data| - 2..];
      if n < |line| - q + 2 { NoBreakYet(line[q..], r, n, stale); } else { LineBreak(line[q..], r, n, stale); }
      found, i := FindBreak(data[parsed..] + stale);
    }

    /** _RecvUntil for CR LF, when a plain line is next on the wire. */
    method RecvUntilBreak(ghost line: seq<byte>, ghost r: seq<byte>) returns (ok: bool, head: nat)
      requires Valid() && removed == 0 && StaleOk() && AllHex(line)
      requires data[parsed..] + incoming == line + [CR, LF] + r
      modifies this`data, this`stale, this`poolSize, this`parsed, this`incoming, this`broken
      ensures Valid() && old(data) <= data && data + incoming == old(data) + old(incoming)
      ensures (old(broken) ==> broken) && (!ok ==> broken)
      ensures ok ==> head == old(parsed) + |line| && parsed == head + 2 <= |data|
      ensures !ok ==> old(parsed) <= parsed <= old(parsed) + |line|
    {
      hide AllHex, Writes;
      ghost var p0 := parsed;
      ok, head := false, 0;
      while true
        invariant start <= p0 <= parsed <= p0 + |line| && parsed <= |data|
        invariant old(data) <= data && data + incoming == old(data) + old(incoming)
        invariant (reliable ==> !broken) && (old(broken) ==> broken)
        invariant data[p0..] + incoming == line + [CR, LF] + r
        invariant stale == [] || (parsed == p0 && StaleOk())
        decreases |incoming|
      {
        if |data| - parsed >= 2 {
          var found, i := SearchBreak(line, r, p0);
          if found {
            head := parsed + i;
            parsed := head + 2;
            return true, head;
          }
          parsed := |data| - 1;
        }
        var got := ReceiveMore(line, r, p0);
        if !got { return; }
      }
    }

    /** One receive while the line is not complete; the peer does not end inside it. */
    method ReceiveMore(ghost line: seq<byte>, ghost r: seq<byte>, ghost p0: nat) returns (ok: bool)
      requires p0 <= |data| < p0 + |line| + 2 && data[p0..] + incoming == line + [CR, LF] + r
      modifies this`data, this`incoming, this`poolSize, this`stale, this`broken
      ensures (old(broken) ==> broken) && (reliable ==> broken == old(broken)) && (!ok ==> broken)
      ensures old(data) <= data && data + incoming == old(data) + old(incoming)
      ensures ok ==> data[p0..] + incoming == line + [CR, LF] + r && stale == [] && |incoming| < |old(incoming)|
    {
      ghost var d, inc := data, incoming;
      assert |data[p0..] + incoming| == |line| + 2 + |r|;
      ok := Receive();
      if ok { Shift(d, inc, data, incoming, p0); }
    }

    /** _RecvOneChunk: the payload size of a chunk, 0 at the end, -1 on error. `lost` tells
        an end reported because the connection failed inside a size line. */
    method RecvOneChunk(ghost cs: seq<Chunk>, ghost last: seq<byte>, ghost rest: seq<byte>)
      returns (ret: int, ghost lost: bool, ghost m: nat)
      requires Valid() && removed == 0 && StaleOk() && Writes(last, 0)
      requires forall i :: 0 <= i < |cs| ==> WellFormed(cs[i])
      requires data[parsed..] + incoming == Wire(cs, last, rest)
      modifies this
      ensures Valid() && removed == 0
      ensures ret > 0 ==> cs != [] && Response() == old(Response()) + cs[0].payload
      ensures ret > 0 ==> StaleOk() && data[parsed..] + incoming == Wire(cs[1..], last, rest)
      ensures (ret != 0 ==> !lost) && (old(broken) ==> broken) && (ret < 0 || lost ==> broken)
      ensures ret == 0 && !lost ==> cs == [] && Response() == old(Response()) + last[..|last| - 1]
      ensures ret == 0 && lost ==>
                var line := if cs == [] then last else cs[0].line;
                m <= |line| && Response() == old(Response()) + line[..m]
    {
      hide AllHex, IsHex, WellFormed, Writes, Wire, HexValue;
      LineNext(cs, last, rest);
      ghost var line, payload, r, more := last, [], rest, rest;
      if cs != [] {
        line, payload, more := cs[0].line, cs[0].payload, Wire(cs[1..], last, rest);
        r := payload + [CR, LF] + more;
      }
      ret, lost, m := RecvLineAndPayload(line, payload, r, more);
    }

    /** The same, for the line and the payload that come next; no payload is the end. */
    method RecvLineAndPayload(ghost line: seq<byte>, ghost payload: seq<byte>, ghost r: seq<byte>,
                              ghost more: seq<byte>)
      returns (ret: int, ghost lost: bool, ghost m: nat)
      requires Valid() && removed == 0 && StaleOk() && AllHex(line) && line != [] && HexValue(line) == |payload|
      requires data[parsed..] + incoming == line + [CR, LF] + r && (payload != [] ==> r == payload + [CR, LF] + more)
      modifies this
      ensures Valid() && removed == 0 && (ret != 0 ==> !lost)
      ensures (old(broken) ==> broken) && (ret < 0 || lost ==> broken)
      ensures ret > 0 ==> payload != [] && Response() == old(Response()) + payload
      ensures ret > 0 ==> StaleOk() && data[parsed..] + incoming == more
      ensures ret == 0 && !lost ==> payload == [] && Response() == old(Response()) + line[..|line| - 1]
      ensures ret == 0 && lost ==> m <= |line| && Response() == old(Response()) + line[..m]
    {
      hide AllHex, HexValue, Writes;
      lost, m := false, 0;
      ghost var d0 := data;
      var first := parsed;
      var ok, size := ReadSizeLine(line, r);
      if !ok {
        lost, m := true, parsed - first;
        return 0, lost, m;
      }
      if size == 0 {
        parsed := parsed - 3;
        EndLine(data, d0, start, first, line);
        return 0, lost, m;
      }
      ret := TakePayload(payload, more, first, size);
      if ret > 0 { SliceAppend(data, d0, start, first, parsed); }
    }

    /** The size line at the head of the unparsed bytes. */
    method ReadSizeLine(ghost line: seq<byte>, ghost r: seq<byte>) returns (ok: bool, size: nat)
      requires Valid() && removed == 0 && StaleOk() && AllHex(line)
      requires data[parsed..] + incoming == line + [CR, LF] + r
      modifies this`data, this`stale, this`poolSize, this`parsed, this`incoming, this`broken
      ensures Valid() && (old(broken) ==> broken) && (!ok ==> broken)
      ensures !ok ==>
                && 0 <= parsed - old(parsed) <= |line|
                && Response() == old(Response()) + line[..parsed - old(parsed)]
      ensures ok ==>
                && size == HexValue(line) && (line != [] ==> Writes(line, size))
                && parsed == old(parsed) + |line| + 2
                && data[..old(parsed)] == old(data[..parsed])
                && data[old(parsed)..old(parsed) + |line|] == line && data[parsed..] + incoming == r
    {
      hide AllHex, Writes;
      size := 0;
      var first := parsed;
      ghost var d0 := data;
      var tail;
      ok, tail := RecvUntilBreak(line, r);
      LineRead(d0, old(incoming), data, incoming, first, line, r);
      if ok {
        assert data[first..first + |line|] == line[..|line|] == line;
        size := HexValue(data[first..tail]);
        if line != [] { HexValueIff(line, size); }
      } else {
        SliceAppend(data, d0, start, first, parsed);
        ghost var m := parsed - first;
        assert data[first..first + m] == line[..m];
      }
    }

    /** Cutting the size line out, receiving the payload behind it, cutting its CR LF. */
    method TakePayload(ghost payload: seq<byte>, ghost more: seq<byte>, first: nat, size: nat) returns (ret: int)
      requires removed == 0 && start <= first && size == |payload| > 0 && (reliable ==> !broken)
      requires first + 2 <= parsed <= |data| && |data| + |incoming| < WORD
      requires data[parsed..] + incoming == payload + [CR, LF] + more
      modifies this
      ensures Valid() && removed == 0 && first <= parsed && first <= |data| && data[..first] == old(data[..first])
      ensures ret > 0 ==> data[first..parsed] == payload && StaleOk()
      ensures ret > 0 ==> data[parsed..] + incoming == more
      ensures ret != 0 && (old(broken) ==> broken) && (ret < 0 ==> broken)
    {
      ghost var head := data[..first];
      data := data[..first] + data[parsed..];
      parsed := first;
      ghost var d1, inc1 := data, incoming;
      assert data[first..] + incoming == payload + [CR, LF] + more;
      var ok := RecvPayload(size);
      assert data[..first] == d1[..first] == head;
      Conserved(taken, d1, inc1, data, incoming, start, first);
      if !ok { return -1; }
      CutBreak(payload, more, first);
      var cancelled := Disturbed();   // by the data callback
      if cancelled { return -1; }
      ret := size;
    }

    /** The receive of a chunk of `size` bytes and its CR LF, whatever is to come: a success
        comes without the bytes exactly when their end has no 32-bit position, and but for the
        largest size such a receive always succeeds. */
    method RecvPayload(size: nat) returns (ok: bool)
      requires Valid() && removed == 0 && size < WORD
      modifies this`data, this`stale, this`poolSize, this`parsed, this`removed, this`incoming, this`taken, this`broken
      ensures old(broken) ==> broken
      ensures old(parsed) + size + 2 < WORD ==>
                && Valid() && removed == 0 && taken == old(taken)
                && All() == old(All()) && old(data) <= data && parsed >= old(parsed)
                && (!ok ==> broken || (incoming == [] && |data| < old(parsed) + size + 2))
                && (ok ==> parsed == old(parsed) + size + 2 <= |data| && stale == [])
      ensures old(parsed) + size + 2 >= WORD && size + 2 <= WORD ==>
                ok && Untouched(old(data), old(incoming)) && parsed == old(parsed) + size + 2 - WORD
      ensures ok ==> (|data| < old(parsed) + size + 2 <==> old(parsed) + size + 2 >= WORD)
    {
      var end := EndPosition(parsed, size + 2);
      if size + 2 < WORD { EndPositionIff(parsed, size + 2); } else { EndPositionLarge(parsed, size); }
      ok := RecvUpTo(end, false);
    }

    /** The payload stays; its CR LF is cut, and two bytes are left behind the data. */
    method CutBreak(ghost payload: seq<byte>, ghost more: seq<byte>, ghost first: nat)
      requires parsed == first + |payload| + 2 <= |data| && data[first..] + incoming == payload + [CR, LF] + more
      modifies this`data, this`stale, this`parsed
      ensures parsed == first + |payload| <= |data| && data[..first] == old(data[..first])
      ensures data[first..parsed] == payload && data[parsed..] + incoming == more && StaleOk()
    {
      Payload(data, incoming, first, payload, more);
      stale := data[|data| - 2..];
      data := data[..parsed - 2] + data[parsed..];
      parsed := parsed - 2;
    }

    /** A chunked body: however it arrives, the response is the payloads, plus all but one
        of the digits of the last size line. A connection lost inside a size line ends the
        body too, after the digits already scanned. */
    method ReceiveChunked(ghost cs: seq<Chunk>, ghost last: seq<byte>, ghost rest: seq<byte>)
      returns (ok: bool, ghost lost: bool, ghost done: nat, ghost m: nat)
      requires Valid() && removed == 0 && parsed == start && stale == [] && Writes(last, 0)
      requires forall i :: 0 <= i < |cs| ==> WellFormed(cs[i])
      requires data[start..] + incoming == Wire(cs, last, rest)
      modifies this
      ensures Valid()
      ensures (!ok || lost ==> broken) && (reliable ==> ok && !lost)
      ensures ok && !lost ==> Response() == Payloads(cs) + last[..|last| - 1]
      ensures ok && lost ==>
                && done <= |cs|
                && var line := if done == |cs| then last else cs[done].line;
                   m <= |line| && Response() == Payloads(cs[..done]) + line[..m]
    {
      hide Wire, WellFormed, Writes, Payloads;
      lost, done, m := false, 0, 0;
      assert cs[0..] == cs && data[start..start] == [];
      NoPayloads(cs);
      while true
        invariant Valid() && removed == 0 && StaleOk() && done <= |cs| && !lost
        invariant data[parsed..] + incoming == Wire(cs[done..], last, rest)
        invariant Response() == Payloads(cs[..done])
        decreases |cs| - done
      {
        ghost var todo := cs[done..];
        ghost var before := Response();
        var ret;
        ret, lost, m := RecvOneChunk(todo, last, rest);
        if ret < 0 { return false, lost, done, m; }
        if ret == 0 {
          if !lost { assert cs[..done] == cs; }
          return true, lost, done, m;
        }
        assert todo[1..] == cs[done + 1..];
        PayloadsNext(cs, done);
        done := done + 1;
      }
    }
  }

  /** "Content-Length: 4294967286", three bytes to come: success, and a response of that length. */
  method HugeLengthAccepted(header: seq<byte>, reliable: bool) returns (ok: bool, length: nat)
    requires 10 <= |header| < 1000
    ensures ok && length == 0xffff_fff6
  {
    var s := new Session(header, |header|, 4096, [1, 2, 3], reliable);
    ok := s.ReceiveContent(0xffff_fff6);
    length := s.ResponseLength();
  }

  lemma NoPayloads(cs: seq<Chunk>)
    ensures Payloads(cs[..0]) == []
  {
  }

  lemma {:induction false} PayloadsNext(cs: seq<Chunk>, k: nat)
    requires k < |cs|
    ensures Payloads(cs[..k + 1]) == Payloads(cs[..k]) + cs[k].payload
    decreases k
  {
    if k == 0 {
      assert cs[..1][1..] == [];
    } else {
      PayloadsNext(cs[1..], k - 1);
      assert cs[..k + 1][1..] == cs[1..][..k] && cs[..k][1..] == cs[1..][..k - 1];
    }
  }

  /** The wire starts with a size line; it is 0 exactly at the end. */
  lemma LineNext(cs: seq<Chunk>, last: seq<byte>, rest: seq<byte>)
    requires Writes(last, 0) && forall i :: 0 <= i < |cs| ==> WellFormed(cs[i])
    ensures var line := if cs == [] then last else cs[0].line;
            var r := if cs == [] then rest else cs[0].payload + [CR, LF] + Wire(cs[1..], last, rest);
            && AllHex(line) && line != [] && Wire(cs, last, rest) == line + [CR, LF] + r
            && (HexValue(line) == 0 <==> cs == [])
            && (cs != [] ==> HexValue(line) == |cs[0].payload|)
  {
    hide Writes, HexValue;
    HexValueIff(last, 0);
    if cs != [] {
      assert WellFormed(cs[0]);
      HexValueIff(cs[0].line, |cs[0].payload|);
    }
  }

  lemma Shift(d: seq<byte>, inc: seq<byte>, d': seq<byte>, inc': seq<byte>, p: nat)
    requires p <= |d| && d <= d' && d' + inc' == d + inc
    ensures d'[p..] + inc' == d[p..] + inc
  {
    assert d'[p..] + inc' == (d' + inc')[p..];
    assert d[p..] + inc == (d + inc)[p..];
  }

  /** After a successful or failed search, the buffer holds the line as far as it reaches. */
  lemma LineRead(d0: seq<byte>, inc0: seq<byte>, d: seq<byte>, inc: seq<byte>, p: nat, line: seq<byte>, r: seq<byte>)
    requires p <= |d0| && d0 <= d && d + inc == d0 + inc0 && d0[p..] + inc0 == line + [CR, LF] + r
    ensures forall m :: 0 <= m <= |line| && p + m <= |d| ==> d[p..p + m] == line[..m]
    ensures p + |line| + 2 <= |d| ==> d[p + |line| + 2..] + inc == r
    ensures d[..p] == d0[..p]
  {
    Shift(d0, inc0, d, inc, p);
    var wire := line + [CR, LF] + r;
    forall m | 0 <= m <= |line| && p + m <= |d|
      ensures d[p..p + m] == line[..m]
    {
      assert d[p..p + m] == (d[p..] + inc)[..m] == wire[..m];
    }
    if p + |line| + 2 <= |d| {
      assert d[p + |line| + 2..] + inc == (d[p..] + inc)[|line| + 2..] == wire[|line| + 2..];
    }
  }

  lemma SliceAppend(d: seq<byte>, d0: seq<byte>, a: nat, b: nat, c: nat)
    requires a <= b <= c <= |d| && b <= |d0| && d[..b] == d0[..b]
    ensures d[a..c] == d0[a..b] + d[b..c]
  {
    assert d[a..b] == d[..b][a..] && d0[a..b] == d0[..b][a..];
    assert d[a..c] == d[a..b] + d[b..c];
  }

  lemma EndLine(d: seq<byte>, d0: seq<byte>, a: nat, b: nat, line: seq<byte>)
    requires a <= b <= |d0| && b + |line| <= |d| && d[..b] == d0[..b] && line != [] && d[b..b + |line|] == line
    ensures d[a..b + |line| - 1] == d0[a..b] + line[..|line| - 1]
  {
    SliceAppend(d, d0, a, b, b + |line| - 1);
    forall i | 0 <= i < |line| - 1
      ensures d[b + i] == line[i]
    {
      assert d[b..b + |line|][i] == line[i];
    }
  }

  lemma Conserved(taken: seq<byte>, d: seq<byte>, inc: seq<byte>, d': seq<byte>, inc': seq<byte>,
                  start: nat, first: nat)
    requires start <= first <= |d| && d <= d'
    requires taken + d'[start..] + inc' == taken + d[start..] + inc
    ensures d'[first..] + inc' == d[first..] + inc
  {
    var k := |taken| + first - start;
    assert (taken + d'[start..] + inc')[k..] == d'[first..] + inc';
    assert (taken + d[start..] + inc)[k..] == d[first..] + inc;
  }

  /** The payload and its CR LF at `first`, once they are in the buffer. */
  lemma Payload(d: seq<byte>, inc: seq<byte>, first: nat, payload: seq<byte>, more: seq<byte>)
    requires first + |payload| + 2 <= |d| && d[first..] + inc == payload + [CR, LF] + more
    ensures var p := first + |payload|;
            var d' := d[..p] + d[p + 2..];
            && d'[first..p] == payload && d'[p..] + inc == more
            && (|d'| >= p + 2 ==> d'[|d'| - 2..] == d[|d| - 2..])
  {
    var p, t := first + |payload|, payload + [CR, LF] + more;
    var d' := d[..p] + d[p + 2..];
    assert d'[first..p] == (d[first..] + inc)[..|payload|] == t[..|payload|];
    assert d'[p..] + inc == (d[first..] + inc)[|payload| + 2..] == t[|payload| + 2..];
  }

  lemma SuffixLine(line: seq<byte>, r: seq<byte>, q: nat, text: seq<byte>, inc: seq<byte>)
    requires AllHex(line) && q <= |line| && q <= |text| && text + inc == line + [CR, LF] + r
    ensures AllHex(line[q..])
    ensures text[q..] == (line[q..] + [CR, LF] + r)[..|text| - q] && |text| - q <= |line[q..]| + 2 + |r|
  {
    var wire := line + [CR, LF] + r;
    assert wire[q..] == line[q..] + [CR, LF] + r;
    assert text == wire[..|text|];
    assert text[q..] == wire[q..][..|text| - q];
  }

  lemma Regroup(taken: seq<byte>, d: seq<byte>, inc: seq<byte>, d': seq<byte>, inc': seq<byte>, start: nat)
    requires start <= |d| && d <= d' && d' + inc' == d + inc
    ensures taken + d'[start..] + inc' == taken + d[start..] + inc
  {
    assert d'[start..] + inc' == (d' + inc')[start..];
    assert d[start..] + inc == (d + inc)[start..];
    assert taken + d'[start..] + inc' == taken + (d'[start..] + inc');
    assert taken + d[start..] + inc == taken + (d[start..] + inc);
  }

  lemma ProbedLast(p: seq<byte>, t: seq<byte>, taken: seq<byte>, data: seq<byte>, start: nat, length: nat)
    requires start <= |data| && taken + data[start..] == t && length <= |t| && p == t[..length]
    requires |taken| <= length
    ensures taken + data[start..start + length - |taken|] == p
  {
    assert (taken + data[start..])[..length] == taken + data[start..start + length - |taken|];
  }
}
