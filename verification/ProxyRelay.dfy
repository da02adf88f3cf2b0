/**
 The response relay of `main/proxy_relay.c`: reading the header in chunks, building the reply
 header, and relaying the body. How much a `recv` returns is up to the network: `cuts` lists
 what it would have at hand each time, and the contracts hold for every such list.
 */
module ProxyRelay {
  import opened Prelude
  import opened ProxyHead

  const BODY_CHUNK: nat := 512

  // ---- The network ------------------------------------------------------------------------

  /** What one `recv` of up to `max` bytes returns of `left`: at least one byte while there is any. */
  function Cut(left: nat, cuts: seq<nat>, max: nat): (n: nat)
    requires max > 0
    ensures n <= left && n <= max && (n == 0 <==> left == 0)
  {
    Min(left, Min(max, if cuts == [] then max else Max(1, cuts[0])))
  }

  function Later(cuts: seq<nat>): seq<nat> {
    if cuts == [] then [] else cuts[1..]
  }

  /** The upstream connection: the bytes it will still deliver before it ends or times out. */
  class Upstream {
    var pending: string
    var cuts: seq<nat>

    constructor (stream: string, cuts: seq<nat>)
      ensures pending == stream && this.cuts == cuts
    {
      pending, this.cuts := stream, cuts;
    }

    method Recv(max: nat) returns (data: string)
      requires max > 0
      modifies this
      ensures data == old(pending)[..Cut(|old(pending)|, old(cuts), max)] && pending == old(pending)[|data|..]
      ensures cuts == if data == "" then old(cuts) else Later(old(cuts))
    {
      var n := Cut(|pending|, cuts, max);
      data := pending[..n];
      pending := pending[n..];
      if n > 0 { cuts := Later(cuts); }
    }
  }

  // ---- Reading the header block ---------------------------------------------------------------

  ghost predicate HasBlank(t: string) {
    exists i :: BlankAt(t, i)
  }

  /** The end of the first blank line, if the stream has one. */
  function BlockEnd(t: string, from: nat): (r: Option<nat>)
    ensures r.Some? ==> from + 4 <= r.value <= |t| && BlankAt(t, r.value - 4)
    ensures forall i :: from <= i && (r.Some? ==> i < r.value - 4) ==> !BlankAt(t, i)
    decreases |t| - from
  {
    if from + 4 > |t| then None else if BlankAt(t, from) then Some(from + 4) else BlockEnd(t, from + 1)
  }

  /** Scans the unread part of the buffer, reaching back over a terminator cut by the chunks. */
  method ScanFrom(head: array<char>, from: nat, len: nat) returns (found: bool)
    requires len <= head.Length
    ensures found <==> exists i :: from <= i && BlankAt(head[..len], i)
  {
    var i := from;
    while i + 4 <= len
      invariant from <= i
      invariant forall k :: from <= k < i ==> !BlankAt(head[..len], k)
    {
      if head[i] == '\r' && head[i + 1] == '\n' && head[i + 2] == '\r' && head[i + 3] == '\n' {
        assert BlankAt(head[..len], i);
        return true;
      }
      assert !BlankAt(head[..len], i);
      i := i + 1;
    }
    return false;
  }

  lemma BlankNeedsNewBytes(before: string, after: string, i: nat)
    requires before <= after && BlankAt(after, i) && i + 3 < |before|
    ensures BlankAt(before, i)
  {
  }

  /** One `recv` into the buffer behind its first `len` bytes. */
  method ReadChunk(up: Upstream, head: array<char>, len: nat) returns (n: nat)
    requires head.Length == BUF && len < BUF - 1
    modifies up, head
    ensures n == Cut(|old(up.pending)|, old(up.cuts), BUF - 1 - len)
    ensures up.cuts == if n == 0 then old(up.cuts) else Later(old(up.cuts))
    ensures head[..len + n] == old(head[..len]) + old(up.pending)[..n] && up.pending == old(up.pending)[n..]
    ensures n > 0 ==> head[len + n] == '\0'
    ensures n == 0 ==> head[len] == old(head[len])
  {
    var data := up.Recv(BUF - 1 - len);
    n := |data|;
    if n == 0 { return; }
    var k := 0;
    while k < n
      invariant 0 <= k <= n && head[..len + k] == old(head[..len]) + data[..k]
      invariant up.pending == old(up.pending)[n..] && up.cuts == Later(old(up.cuts))
    {
      head[len + k] := data[k];
      k := k + 1;
    }
    assert data[..k] == data;
    head[len + n] := '\0';
  }

  /** Scanning from three bytes before the new chunk finds a blank line if there is one. */
  lemma NoBlankBefore(before: string, after: string, from: nat)
    requires before <= after && !HasBlank(before) && from <= |before| && (from == 0 || from + 3 <= |before|)
    requires from == 0 || from == |before| - 3
    ensures HasBlank(after) <==> exists i :: from <= i && BlankAt(after, i)
  {
    if HasBlank(after) {
      var i :| BlankAt(after, i);
      if i < from {
        BlankNeedsNewBytes(before, after, i);
        assert false;
      }
    }
  }

  lemma TakeMore(s: string, len: nat, n: nat)
    requires len + n <= |s|
    ensures s[..len] + s[len..][..n] == s[..len + n] && s[len..][n..] == s[len + n..]
  {
  }

  datatype Taken = Taken(len: nat, cuts: seq<nat>)

  /** What the header loop has read when it stops, from where it has read `len` bytes. */
  ghost function HeadTaken(stream: string, len: nat, cuts: seq<nat>): (r: Taken)
    requires len <= |stream| && len < BUF
    ensures len <= r.len <= |stream| && r.len < BUF
    decreases BUF - len
  {
    if len == BUF - 1 || len == |stream| || HasBlank(stream[..len]) then Taken(len, cuts)
    else HeadTaken(stream, len + Cut(|stream| - len, cuts, BUF - 1 - len), Later(cuts))
  }

  lemma {:induction false} HeadTakenEnds(stream: string, len: nat, cuts: seq<nat>)
    requires len <= |stream| && len < BUF
    ensures var n := HeadTaken(stream, len, cuts).len;
            n == BUF - 1 || n == |stream| || HasBlank(stream[..n])
    decreases BUF - len
  {
    if len < BUF - 1 && len < |stream| && !HasBlank(stream[..len]) {
      HeadTakenEnds(stream, len + Cut(|stream| - len, cuts, BUF - 1 - len), Later(cuts));
    }
  }

  /** Scans the new chunk, starting a bit before it. */
  method ScanTail(head: array<char>, len: nat, n: nat) returns (found: bool)
    requires len + n <= head.Length && !HasBlank(head[..len])
    ensures found <==> HasBlank(head[..len + n])
  {
    var from := if len - 3 < 0 then 0 else len - 3;
    found := ScanFrom(head, from, len + n);
    assert head[..len] <= head[..len + n];
    NoBlankBefore(head[..len], head[..len + n], from);
  }

  lemma HeadTakenStep(stream: string, len: nat, cuts: seq<nat>)
    requires len <= |stream| && len < BUF - 1 && !HasBlank(stream[..len])
    ensures var n := Cut(|stream| - len, cuts, BUF - 1 - len);
            HeadTaken(stream, len, cuts) == if n == 0 then Taken(len, cuts) else HeadTaken(stream, len + n, Later(cuts))
  {
  }

  /** The buffer holds the first `len` bytes of the stream and a NUL; the rest is still to come. */
  ghost predicate HasRead(stream: string, head: array<char>, len: nat, up: Upstream)
    reads head, up
  {
    && head.Length == BUF && len < BUF && len <= |stream|
    && head[..len] == stream[..len] && head[len] == '\0' && up.pending == stream[len..]
  }

  /** One turn of the loop. */
  method ReadMore(up: Upstream, head: array<char>, len: nat, ghost stream: string)
    returns (n: nat, found: bool)
    requires HasRead(stream, head, len, up) && len < BUF - 1 && !HasBlank(stream[..len])
    modifies up, head
    ensures HasRead(stream, head, len + n, up) && (found <==> HasBlank(stream[..len + n]))
    ensures HeadTaken(stream, len, old(up.cuts)) == if n == 0 then Taken(len, up.cuts) else HeadTaken(stream, len + n, up.cuts)
    ensures n == 0 ==> !found
  {
    HeadTakenStep(stream, len, up.cuts);
    n := ReadChunk(up, head, len);
    TakeMore(stream, len, n);
    assert head[..len] == head[..len + n][..len] == stream[..len];
    if n == 0 { return n, false; }
    found := ScanTail(head, len, n);
  }

  /**
   Fills the buffer until the blank line is in it, the buffer is full, or the stream ends.
   `before` is what the buffer held when the chunk came that completed the blank line.
   */
  method ReadHead(up: Upstream, head: array<char>) returns (len: nat, found: bool, ghost before: nat)
    requires head.Length == BUF
    modifies up, head
    ensures Taken(len, up.cuts) == HeadTaken(old(up.pending), 0, old(up.cuts))
    ensures HasRead(old(up.pending), head, len, up)
    ensures found <==> HasBlank(old(up.pending)[..len])
    ensures found ==> before < len && !HasBlank(old(up.pending)[..before])
  {
    ghost var stream := up.pending;
    ghost var goal := HeadTaken(stream, 0, up.cuts);
    head[0] := '\0';
    len, found, before := 0, false, 0;
    while len < BUF - 1 && !found
      invariant HasRead(stream, head, len, up) && (found <==> HasBlank(stream[..len]))
      invariant goal == HeadTaken(stream, len, up.cuts)
      invariant found ==> before < len && !HasBlank(stream[..before])
      decreases BUF - len, !found
    {
      before := len;
      var n;
      n, found := ReadMore(up, head, len, stream);
      if n == 0 { break; }
      len := len + n;
    }
  }

  /** However the stream is cut, a block that fits the buffer is found, and the buffer holds it. */
  lemma BlockIsRead(stream: string, len: nat, b: nat)
    requires BlockEnd(stream, 0) == Some(b) && b < 2048 && len <= |stream|
    requires !HasBlank(stream[..len]) ==> len == BUF - 1 || len == |stream|
    ensures HasBlank(stream[..len]) && b <= len && BlockEnd(stream[..len], 0) == Some(b)
  {
    var t := stream[..len];
    if !HasBlank(t) {
      assert BlankAt(t, b - 4);
    }
    var i :| BlankAt(t, i);
    assert BlankAt(stream, i);
    assert b <= len;
    assert BlankAt(t, b - 4);
    forall k | 0 <= k < b - 4 ensures !BlankAt(t, k) {
      assert !BlankAt(stream, k);
    }
    var e := BlockEnd(t, 0);
    assert e.Some?;
  }

  // ---- Building the reply header -----------------------------------------------------------------

  method StrStr(t: string, from: nat) returns (r: Option<nat>)
    ensures r == FindCrlf(t, from)
  {
    var i := from;
    while i + 2 <= |t|
      invariant from <= i && FindCrlf(t, from) == FindCrlf(t, i)
    {
      if t[i] == '\r' && t[i + 1] == '\n' { return Some(i); }
      i := i + 1;
    }
    return None;
  }

  method StrChr(t: string, c: char) returns (r: Option<nat>)
    ensures r == FindChar(t, c)
  {
    var i := 0;
    while i < |t|
      invariant 0 <= i <= |t| && forall k :: 0 <= k < i ==> t[k] != c
    {
      if t[i] == c { return Some(i); }
      i := i + 1;
    }
    return None;
  }

  method ParseStatus(t: string) returns (status: string)
    ensures status == Status(t)
  {
    status := DEFAULT_STATUS;
    var sp := StrChr(t, ' ');
    if sp.Some? {
      var end := StrStr(t, sp.value);
      if end.Some? {
        var len := end.value - (sp.value + 1);
        if len <= STATUS_MAX {
          status := t[sp.value + 1..end.value];
        }
      }
    }
  }

  /** The output buffer as `Out`: at most `BUF - 1` characters of it are text. */
  ghost function Written(out: array<char>, len: nat): Out
    requires out.Length == BUF
    reads out
  {
    Out(out[..Min(len, BUF - 1)], len)
  }

  /** `if (out_len < BUF) out_len += snprintf(out + out_len, BUF - out_len, ...)`. */
  method Print(out: array<char>, len: nat, s: string) returns (len': nat)
    requires out.Length == BUF
    modifies out
    ensures Written(out, len') == Put(old(Written(out, len)), s)
  {
    if len >= BUF { return len; }
    var room := BUF - 1 - len;
    var i := 0;
    while i < |s| && i < room
      invariant 0 <= i <= |s| && i <= room && out[..len + i] == old(out[..len]) + s[..i]
    {
      out[len + i] := s[i];
      i := i + 1;
    }
    out[len + i] := '\0';
    assert s[..i] == Truncated(s, room);
    return len + |s|;
  }

  /** `memcpy` of a header line and its line end. */
  method CopyLine(out: array<char>, len: nat, line: string) returns (len': nat)
    requires out.Length == BUF
    modifies out
    ensures Written(out, len') == PutLine(old(Written(out, len)), line)
  {
    if len + |line| + 4 >= BUF { return len; }
    var i := 0;
    while i < |line|
      invariant 0 <= i <= |line| && out[..len + i] == old(out[..len]) + line[..i]
    {
      out[len + i] := line[i];
      i := i + 1;
    }
    assert line[..i] == line;
    out[len + i] := '\r';
    out[len + i + 1] := '\n';
    return len + i + 2;
  }

  method SkipBlanks(s: string) returns (r: string)
    ensures r == SkipSpaces(s)
  {
    r := s;
    while r != "" && r[0] == ' '
      invariant SkipSpaces(s) == SkipSpaces(r)
      decreases |r|
    {
      r := r[1..];
    }
  }

  /** The branches of the header loop. */
  method JudgeLine(line: string) returns (v: Verdict)
    ensures v == Judge(line)
  {
    var colon := StrChr(line, ':');
    if colon.None? || colon.value > NAME_MAX { return Drop; }
    var name := line[..colon.value];
    var value := SkipBlanks(line[colon.value + 1..]);
    if EqualNoCase(name, "Content-Length") {
      return Length(Truncated(value, VALUE_MAX));
    } else if !IsHopByHop(name) {
      return Keep(line);
    }
    return Drop;
  }

  method EmitLine(out: array<char>, len: nat, line: string, cl: Option<nat>)
    returns (len': nat, cl': Option<nat>)
    requires out.Length == BUF
    modifies out
    ensures Acc(Written(out, len'), cl') == Process(Acc(old(Written(out, len)), cl), Judge(line))
  {
    len', cl' := len, cl;
    var v := JudgeLine(line);
    match v
    case Drop =>
    case Length(value) =>
      cl' := Some(StrToUl(value));
      len' := Print(out, len, LengthLine(value) + CRLF);
    case Keep(_) =>
      len' := CopyLine(out, len, line);
  }

  lemma JudgeAllCons(line: string, rest: seq<string>)
    ensures JudgeAll([line] + rest) == [Judge(line)] + JudgeAll(rest)
  {
  }

  lemma LinesOfNext(s: string, end: nat, done: seq<Verdict>)
    requires s != "" && !IsCrlf(s, 0) && FindCrlf(s, 0) == Some(end)
    ensures done + JudgeAll(LinesOf(s)) == (done + [Judge(s[..end])]) + JudgeAll(LinesOf(s[end + 2..]))
  {
    var line, rest := s[..end], LinesOf(s[end + 2..]);
    assert LinesOf(s) == [line] + rest;
    JudgeAllCons(line, rest);
    Regroup(done, Judge(line), JudgeAll(rest));
  }

  lemma Regroup(done: seq<Verdict>, v: Verdict, rest: seq<Verdict>)
    ensures done + ([v] + rest) == (done + [v]) + rest
  {
  }

  lemma ProcessAllPush(a: Acc, vs: seq<Verdict>, v: Verdict)
    requires Sound(a.out)
    ensures ProcessAll(a, vs + [v]) == Process(ProcessAll(a, vs), v)
  {
    assert (vs + [v])[..|vs|] == vs;
  }

  /** Emits every header line from the pointer `lines` on. */
  method EmitLines(lines: string, out: array<char>, len: nat, cl: Option<nat>)
    returns (len': nat, cl': Option<nat>)
    requires out.Length == BUF
    modifies out
    ensures Acc(Written(out, len'), cl') == ProcessAll(Acc(old(Written(out, len)), cl), JudgeAll(LinesOf(lines)))
  {
    ghost var start := Acc(Written(out, len), cl);
    ghost var done: seq<Verdict> := [];
    ghost var all := JudgeAll(LinesOf(lines));
    len', cl' := len, cl;
    var lineStart := lines;
    while lineStart != "" && !(|lineStart| >= 2 && lineStart[0] == '\r' && lineStart[1] == '\n')
      invariant Sound(start.out)
      invariant all == done + JudgeAll(LinesOf(lineStart))
      invariant Acc(Written(out, len'), cl') == ProcessAll(start, done)
      decreases |lineStart|
    {
      var end := StrStr(lineStart, 0);
      if end.None? { break; }
      var line := lineStart[..end.value];
      LinesOfNext(lineStart, end.value, done);
      ProcessAllPush(start, done, Judge(line));
      len', cl' := EmitLine(out, len', line, cl');
      done := done + [Judge(line)];
      lineStart := lineStart[end.value + 2..];
    }
    assert LinesOf(lineStart) == [];
    assert all == done;
  }

  method CString(head: array<char>, len: nat) returns (t: string)
    requires len < head.Length && head[len] == '\0'
    ensures t == CText(head[..len])
  {
    var n := 0;
    while head[n] != '\0'
      invariant 0 <= n <= len && forall k :: 0 <= k < n ==> head[k] != '\0'
      decreases len - n
    {
      n := n + 1;
    }
    t := head[..n];
    CTextIs(head[..len], n);
  }

  lemma {:induction false} CTextIs(s: string, n: nat)
    requires n <= |s| && (forall k :: 0 <= k < n ==> s[k] != '\0') && (n < |s| ==> s[n] == '\0')
    ensures CText(s) == s[..n]
  {
    if n > 0 {
      CTextIs(s[1..], n - 1);
      assert s[..n] == [s[0]] + s[1..][..n - 1];
    }
  }

  method RewriteHead(head: array<char>, len: nat) returns (out: array<char>, outLen: nat, cl: Option<nat>)
    requires len < head.Length && head[len] == '\0'
    ensures fresh(out) && out.Length == BUF
    ensures Acc(Written(out, outLen), cl) == Rewritten(CText(head[..len]))
  {
    var t := CString(head, len);
    var status := ParseStatus(t);
    out := new char[BUF];
    assert Written(out, 0) == Out("", 0);
    outLen := Print(out, 0, StatusLine(status) + CRLF);
    cl := None;
    var end := StrStr(t, 0);
    if end.Some? {
      outLen, cl := EmitLines(t[end.value + 2..], out, outLen, cl);
    }
    outLen := Print(out, outLen, CLOSE_LINE + CRLF + CRLF);
  }

  // ---- Relaying the body ---------------------------------------------------------------------------------

  /** The bytes of the buffer behind the first blank line. */
  method Leftover(head: array<char>, len: nat) returns (rest: string)
    requires len <= head.Length
    ensures rest == BehindBlock(head[..len])
  {
    var i := 0;
    while i + 4 <= len
      invariant 0 <= i && BlockEnd(head[..len], 0) == BlockEnd(head[..len], i)
    {
      if head[i] == '\r' && head[i + 1] == '\n' && head[i + 2] == '\r' && head[i + 3] == '\n' {
        assert head[..len][i + 4..] == head[i + 4..len];
        return head[i + 4..len];
      }
      i := i + 1;
    }
    return "";
  }

  /** How many of the `left` bytes the body loop forwards, `already` having been forwarded. */
  function SentLen(left: nat, cuts: seq<nat>, already: nat, cl: Option<nat>): (n: nat)
    ensures n <= left
    decreases left
  {
    if left == 0 || (cl.Some? && already >= cl.value) then 0 else
      var n := Cut(left, cuts, BODY_CHUNK);
      n + SentLen(left - n, Later(cuts), already + n, cl)
  }

  /** One turn of the loop. */
  method RelayChunk(up: Upstream, relayed: nat, cl: Option<nat>) returns (data: string)
    requires cl.Some? ==> relayed < cl.value
    modifies up
    ensures old(up.pending) == data + up.pending && (data == "" <==> old(up.pending) == "")
    ensures SentLen(|old(up.pending)|, old(up.cuts), relayed, cl)
            == |data| + SentLen(|up.pending|, up.cuts, relayed + |data|, cl)
  {
    data := up.Recv(BODY_CHUNK);
  }

  /** Forwards what is left of the stream: all of it without a length, else until it is reached. */
  method RelayBody(up: Upstream, already: nat, cl: Option<nat>) returns (sent: string)
    modifies up
    ensures old(up.pending) == sent + up.pending
    ensures |sent| == SentLen(|old(up.pending)|, old(up.cuts), already, cl)
  {
    sent := "";
    ghost var all := SentLen(|up.pending|, up.cuts, already, cl);
    while cl.None? || already + |sent| < cl.value
      invariant old(up.pending) == sent + up.pending
      invariant all == |sent| + SentLen(|up.pending|, up.cuts, already + |sent|, cl)
      decreases |up.pending|
    {
      var data := RelayChunk(up, already + |sent|, cl);
      if data == "" { break; }
      sent := sent + data;
    }
  }

  /** All without a length; with one, all or enough, and beyond it by less than a chunk. */
  lemma {:induction false} SentIsRight(left: nat, cuts: seq<nat>, already: nat, cl: Option<nat>)
    ensures var n := SentLen(left, cuts, already, cl);
            && (cl.None? ==> n == left)
            && (cl.Some? ==> n == left || already + n >= cl.value)
            && (cl.Some? && n > 0 ==> already + n < cl.value + BODY_CHUNK)
    decreases left
  {
    if left > 0 && (cl.Some? ==> already < cl.value) {
      var n := Cut(left, cuts, BODY_CHUNK);
      SentIsRight(left - n, Later(cuts), already + n, cl);
    }
  }

  /** A stream whose header block fits the buffer, has a space and no NUL. */
  predicate HasPlainBlock(stream: string) {
    var end := BlockEnd(stream, 0);
    end.Some? && end.value < 2048 && IsBlock(stream[..end.value]) && FindChar(stream[..end.value], ' ').Some?
  }

  /** What the client may be sent of a body `truth` whose announced length is `cl`. */
  predicate RelayedRight(truth: string, cl: Option<nat>, body: string) {
    && body <= truth
    && (cl.None? ==> body == truth)
    && (cl.Some? ==> |body| >= Min(cl.value, |truth|))
    && (cl.Some? && |truth| <= cl.value ==> body == truth)
  }

  /** The bytes of `read` behind its header block. */
  function BehindBlock(read: string): string {
    match BlockEnd(read, 0) case None => "" case Some(b) => read[b..]
  }

  /** Whatever part of the stream the first loop read, the rewriting and the leftover are the same split. */
  lemma HeaderOfAnyCut(stream: string, read: string)
    requires HasPlainBlock(stream) && read <= stream
    requires !HasBlank(read) ==> |read| == BUF - 1 || |read| == |stream|
    ensures var b := BlockEnd(stream, 0).value;
            && b <= |read| && BehindBlock(read) == stream[b..|read|]
            && Rewritten(CText(read)) == Rewritten(stream[..b])
  {
    var b := BlockEnd(stream, 0).value;
    assert read == stream[..|read|];
    BlockIsRead(stream, |read|, b);
    assert stream[..b] <= read;
    RewriteIgnoresTheRest(stream[..b], read);
  }

  /** The header of a plain stream, and the bytes that came along with its blank line. */
  ghost predicate HeaderRelayed(stream: string, cuts: seq<nat>, header: Acc, leftover: string) {
    HasPlainBlock(stream) ==>
      var b, h := BlockEnd(stream, 0).value, HeadTaken(stream, 0, cuts);
      header == Rewritten(stream[..b]) && b <= h.len && leftover == stream[b..h.len]
  }

  lemma HeaderAssembled(stream: string, cuts: seq<nat>, read: string, header: Acc, leftover: string)
    requires read == stream[..HeadTaken(stream, 0, cuts).len]
    requires header == Rewritten(CText(read)) && leftover == BehindBlock(read)
    ensures HeaderRelayed(stream, cuts, header, leftover)
  {
    if HasPlainBlock(stream) {
      HeadTakenEnds(stream, 0, cuts);
      HeaderOfAnyCut(stream, read);
    }
  }

  method RelayHeader(up: Upstream)
    returns (header: array<char>, headerLen: nat, cl: Option<nat>, leftover: string)
    modifies up
    ensures fresh(header) && header.Length == BUF
    ensures var h := HeadTaken(old(up.pending), 0, old(up.cuts));
            up.cuts == h.cuts && up.pending == old(up.pending)[h.len..]
    ensures HeaderRelayed(old(up.pending), old(up.cuts), Acc(Written(header, headerLen), cl), leftover)
  {
    ghost var stream, cuts := up.pending, up.cuts;
    var head := new char[BUF];
    var n, found, before := ReadHead(up, head);
    header, headerLen, cl := RewriteHead(head, n);
    leftover := Leftover(head, n);
    HeaderAssembled(stream, cuts, head[..n], Acc(Written(header, headerLen), cl), leftover);
  }

  /** The stream's first blank line ends at `b`, within the buffer. */
  predicate BlockFits(stream: string, b: nat) {
    BlockEnd(stream, 0) == Some(b) && b < 2048
  }

  lemma HeadHoldsBlock(stream: string, b: nat, cuts: seq<nat>)
    requires BlockFits(stream, b)
    ensures b <= HeadTaken(stream, 0, cuts).len
  {
    HeadTakenEnds(stream, 0, cuts);
    BlockIsRead(stream, HeadTaken(stream, 0, cuts).len, b);
  }

  /** How much of a body of `size` bytes is sent when `first` of them came with the header. */
  function SentBehind(size: nat, first: nat, cuts: seq<nat>, cl: Option<nat>): (n: nat)
    requires first <= size
    ensures n <= size
  {
    first + SentLen(size - first, cuts, first, cl)
  }

  /** How much of the body behind a block of `b` bytes the client is sent, for a stream and its cuts. */
  ghost function BodyLen(stream: string, b: nat, cuts: seq<nat>, cl: Option<nat>): (n: nat)
    requires BlockFits(stream, b)
    ensures b + n <= |stream|
  {
    HeadHoldsBlock(stream, b, cuts);
    var h := HeadTaken(stream, 0, cuts);
    SentBehind(|stream| - b, h.len - b, h.cuts, cl)
  }

  lemma BodyLenIs(stream: string, b: nat, cuts: seq<nat>, h: Taken, cl: Option<nat>)
    requires BlockFits(stream, b) && HeadTaken(stream, 0, cuts) == h && b <= h.len
    ensures BodyLen(stream, b, cuts, cl) == SentBehind(|stream| - b, h.len - b, h.cuts, cl)
  {
  }

  lemma RightLength(truth: string, cl: Option<nat>, n: nat)
    requires n <= |truth| && (cl.None? ==> n == |truth|) && (cl.Some? ==> n == |truth| || n >= cl.value)
    ensures RelayedRight(truth, cl, truth[..n])
  {
  }

  lemma SentBehindIsRight(size: nat, first: nat, cuts: seq<nat>, cl: Option<nat>)
    requires first <= size
    ensures var n := SentBehind(size, first, cuts, cl);
            && (cl.None? ==> n == size) && (cl.Some? ==> n == size || n >= cl.value)
            && (cl.Some? ==> n < cl.value + BODY_CHUNK || n == first)
  {
    SentIsRight(size - first, cuts, first, cl);
  }

  /** However the stream is cut, its body is right, and overshoots by little. */
  lemma BodyIsRight(stream: string, b: nat, cuts: seq<nat>, cl: Option<nat>)
    requires BlockFits(stream, b)
    ensures var n := BodyLen(stream, b, cuts, cl);
            && RelayedRight(stream[b..], cl, stream[b..][..n])
            && (cl.Some? ==> n < cl.value + BODY_CHUNK || b + n < BUF)
  {
    HeadHoldsBlock(stream, b, cuts);
    var h := HeadTaken(stream, 0, cuts);
    SentBehindIsRight(|stream| - b, h.len - b, h.cuts, cl);
    RightLength(stream[b..], cl, BodyLen(stream, b, cuts, cl));
  }

  /** The reply to a plain stream and its cuts: the rewritten block, and so much of the body. */
  ghost predicate Answered(stream: string, cuts: seq<nat>, header: Acc, body: string) {
    HasPlainBlock(stream) ==>
      var b, cl := BlockEnd(stream, 0).value, header.contentLength;
      && header == Rewritten(stream[..b])
      && body == stream[b..][..BodyLen(stream, b, cuts, cl)]
      && RelayedRight(stream[b..], cl, body)
  }

  /** What came with the header and what followed, put together, is the body. */
  lemma BodyAssembled(stream: string, b: nat, h: nat, leftover: string, rest: string)
    requires b <= h <= |stream| && leftover == stream[b..h] && rest <= stream[h..]
    ensures |leftover + rest| <= |stream[b..]| && leftover + rest == stream[b..][..|leftover + rest|]
  {
  }

  lemma BodyAnswered(stream: string, b: nat, cuts: seq<nat>, cl: Option<nat>, leftover: string, rest: string)
    requires BlockFits(stream, b)
    requires var h := HeadTaken(stream, 0, cuts);
             && b <= h.len && leftover == stream[b..h.len]
             && rest <= stream[h.len..] && |rest| == SentLen(|stream| - h.len, h.cuts, |leftover|, cl)
    ensures leftover + rest == stream[b..][..BodyLen(stream, b, cuts, cl)]
    ensures RelayedRight(stream[b..], cl, leftover + rest)
  {
    var h := HeadTaken(stream, 0, cuts);
    BodyLenIs(stream, b, cuts, h, cl);
    BodyAssembled(stream, b, h.len, leftover, rest);
    BodyIsRight(stream, b, cuts, cl);
  }

  lemma AnswerAssembled(stream: string, cuts: seq<nat>, header: Acc, leftover: string, rest: string)
    requires HeaderRelayed(stream, cuts, header, leftover)
    requires var h := HeadTaken(stream, 0, cuts);
             rest <= stream[h.len..] && |rest| == SentLen(|stream| - h.len, h.cuts, |leftover|, header.contentLength)
    ensures Answered(stream, cuts, header, leftover + rest)
  {
    if HasPlainBlock(stream) {
      BodyAnswered(stream, BlockEnd(stream, 0).value, cuts, header.contentLength, leftover, rest);
    }
  }

  /**
   The whole relay. For every stream with a plain block, and for every way the network cuts it:
   the header sent is the rewritten block, and the body sent is a prefix of the true body, long
   enough for the announced length; it may overshoot that length by less than one chunk, or by
   what came along with the header.
   */
  method RelayBytes(up: Upstream) returns (header: array<char>, headerLen: nat, cl: Option<nat>, body: string)
    modifies up
    ensures fresh(header) && header.Length == BUF
    ensures Answered(old(up.pending), old(up.cuts), Acc(Written(header, headerLen), cl), body)
  {
    ghost var stream, cuts := up.pending, up.cuts;
    var leftover;
    header, headerLen, cl, leftover := RelayHeader(up);
    ghost var acc := Acc(Written(header, headerLen), cl);
    var rest := RelayBody(up, |leftover|, cl);
    body := leftover + rest;
    assert acc == Acc(Written(header, headerLen), cl);
    AnswerAssembled(stream, cuts, acc, leftover, rest);
  }

  // ---- Stopping at the announced length ------------------------------------------------------------------

  function Ones(k: nat): (r: seq<nat>)
    ensures |r| == k && forall i :: 0 <= i < k ==> r[i] == 1
  {
    seq(k, _ => 1)
  }

  lemma OneAhead(left: nat, already: nat, cl: nat, rest: seq<nat>)
    requires left > 0 && already < cl
    ensures SentLen(left, [1] + rest, already, Some(cl)) == 1 + SentLen(left - 1, rest, already + 1, Some(cl))
  {
    assert Cut(left, [1] + rest, BODY_CHUNK) == 1 && Later([1] + rest) == rest;
  }

  /** Single bytes up to one before the length, and then two at once. */
  lemma {:induction false} OnesThenTwo(left: nat, already: nat, k: nat)
    requires left >= k + 2
    ensures SentLen(left, Ones(k) + [2], already, Some(already + k + 1)) == k + 2
  {
    if k == 0 {
      assert Ones(0) + [2] == [2] && Cut(left, [2], BODY_CHUNK) == 2;
      assert SentLen(left - 2, [], already + 2, Some(already + 1)) == 0;
    } else {
      OneAhead(left, already, already + k + 1, Ones(k - 1) + [2]);
      assert Ones(k) + [2] == [1] + (Ones(k - 1) + [2]);
      OnesThenTwo(left - 1, already + 1, k - 1);
    }
  }

  /** A first read of the whole block and `extra` bytes more. */
  lemma FirstRead(stream: string, b: nat, extra: nat, rest: seq<nat>)
    requires BlockFits(stream, b) && b + extra <= |stream| && b + extra < BUF
    ensures HeadTaken(stream, 0, [b + extra] + rest) == Taken(b + extra, rest)
  {
    var n := b + extra;
    assert Cut(|stream|, [n] + rest, BUF - 1) == n && Later([n] + rest) == rest;
    assert BlankAt(stream[..n], b - 4);
    assert !HasBlank(stream[..0]);
    assert HeadTaken(stream, n, rest) == Taken(n, rest);
  }

  /** Nothing announced: one byte that comes along with the header. */
  lemma CutPastNothing(stream: string, b: nat)
    requires BlockFits(stream, b) && |stream| > b && b < BUF - 1
    ensures BodyLen(stream, b, [b + 1] + [], Some(0)) > 0
  {
    FirstRead(stream, b, 1, []);
    BodyLenIs(stream, b, [b + 1] + [], Taken(b + 1, []), Some(0));
  }

  /** The header alone, single bytes up to one before the length, and then two at once. */
  lemma CutPastSome(stream: string, b: nat, cl: nat)
    requires BlockFits(stream, b) && |stream| - b > cl > 0
    ensures BodyLen(stream, b, [b + 0] + (Ones(cl - 1) + [2]), Some(cl)) > cl
  {
    var rest := Ones(cl - 1) + [2];
    FirstRead(stream, b, 0, rest);
    BodyLenIs(stream, b, [b + 0] + rest, Taken(b, rest), Some(cl));
    OnesThenTwo(|stream| - b, 0, cl - 1);
    assert SentBehind(|stream| - b, 0, rest, Some(cl)) == SentLen(|stream| - b, rest, 0, Some(cl)) == cl + 1;
  }

  lemma NothingSent(stream: string, cuts: seq<nat>)
    requires BlockFits(stream, BUF - 1)
    ensures BodyLen(stream, BUF - 1, cuts, Some(0)) == 0
  {
    HeadHoldsBlock(stream, BUF - 1, cuts);
  }

  /**
   The relay is meant to stop exactly at the announced length. It does so for every way of
   cutting the stream exactly if the body is no longer than that (or nothing is announced and
   the header fills the buffer, so that nothing can come along with it).
   */
  lemma NeverPastLengthExactly(stream: string, b: nat, cl: nat)
    requires BlockFits(stream, b)
    ensures (forall cuts :: BodyLen(stream, b, cuts, Some(cl)) <= cl) <==>
              |stream| - b <= cl || (cl == 0 && b == BUF - 1)
  {
    if |stream| - b > cl > 0 {
      CutPastSome(stream, b, cl);
    } else if |stream| - b > cl && b < BUF - 1 {
      CutPastNothing(stream, b);
    } else if |stream| - b > cl {
      forall cuts ensures BodyLen(stream, b, cuts, Some(cl)) <= cl {
        NothingSent(stream, cuts);
      }
    }
  }
}
