/**
 The response header of `main/proxy_relay.c`: reading the upstream's block as C strings and
 rewriting it for an HTTP/1.0 client. Characters stand for bytes, '\0' for the NUL that the
 string functions stop at.
 */
module ProxyHead {
  import opened Prelude

  const BUF: nat := 2048
  const CRLF: string := "\r\n"

  // ---- C strings -------------------------------------------------------------------------

  /** The C string that starts a buffer. */
  function CText(s: string): (t: string)
    ensures t <= s && (forall k :: 0 <= k < |t| ==> t[k] != '\0') && (|t| < |s| ==> s[|t|] == '\0')
  {
    if s == "" || s[0] == '\0' then "" else [s[0]] + CText(s[1..])
  }

  predicate IsCrlf(t: string, i: int) {
    0 <= i && i + 2 <= |t| && t[i] == '\r' && t[i + 1] == '\n'
  }

  /** `strstr(t + from, "\r\n")`. */
  function FindCrlf(t: string, from: nat): (r: Option<nat>)
    ensures r.Some? ==> from <= r.value && IsCrlf(t, r.value)
    ensures forall i :: from <= i && (r.Some? ==> i < r.value) ==> !IsCrlf(t, i)
    decreases |t| - from
  {
    if from + 2 > |t| then None else if IsCrlf(t, from) then Some(from) else FindCrlf(t, from + 1)
  }

  /** `strchr(t, c)`. */
  function FindChar(t: string, c: char): (r: Option<nat>)
    ensures r.Some? ==> r.value < |t| && t[r.value] == c
    ensures forall i :: 0 <= i < |t| && (r.Some? ==> i < r.value) ==> t[i] != c
  {
    if t == "" then None
    else if t[0] == c then Some(0)
    else (match FindChar(t[1..], c) case None => None case Some(i) => Some(i + 1))
  }

  predicate EqualNoCase(a: string, b: string) {
    |a| == |b| && forall k :: 0 <= k < |a| ==> Lower(a[k]) == Lower(b[k])
  }

  function SkipSpaces(s: string): (r: string)
    ensures |r| <= |s| && r == s[|s| - |r|..] && (r != "" ==> r[0] != ' ')
  {
    if s != "" && s[0] == ' ' then SkipSpaces(s[1..]) else s
  }

  predicate IsSpace(c: char) {
    c == ' ' || c == '\t' || c == '\n' || c == '\r' || c as int == 11 || c as int == 12
  }

  function DigitsValue(s: string, value: nat): nat {
    if s == "" || !('0' <= s[0] <= '9') then value
    else DigitsValue(s[1..], value * 10 + (s[0] as int - '0' as int))
  }

  /** `strtoul(s, NULL, 10)` with a 32-bit result: saturating, and negating after a minus sign. */
  function StrToUl(s: string): (v: nat)
    ensures v < U32
  {
    if s != "" && IsSpace(s[0]) then StrToUl(s[1..])
    else
      var negative := s != "" && s[0] == '-';
      var v := DigitsValue(if s != "" && (s[0] == '-' || s[0] == '+') then s[1..] else s, 0);
      if v >= U32 then U32 - 1 else if negative then (U32 - v) % U32 else v
  }

  // ---- Parsing the block ---------------------------------------------------------------------

  const DEFAULT_STATUS: string := "200 OK"
  const STATUS_MAX: nat := 31

  /** What follows the first space, up to the end of its line; "200 OK" if absent or too long. */
  function Status(t: string): (s: string)
    ensures |s| <= STATUS_MAX
  {
    var sp := FindChar(t, ' ');
    if sp.None? then DEFAULT_STATUS else
      var end := FindCrlf(t, sp.value);
      if end.None? || end.value - (sp.value + 1) > STATUS_MAX then DEFAULT_STATUS
      else t[sp.value + 1..end.value]
  }

  /** The header lines from a pointer into the block: to the blank line, the end, or an unfinished line. */
  function LinesOf(s: string): (ls: seq<string>)
    decreases |s|
  {
    if s == "" || IsCrlf(s, 0) then [] else
      var end := FindCrlf(s, 0);
      if end.None? then [] else [s[..end.value]] + LinesOf(s[end.value + 2..])
  }

  function HeaderLines(t: string): seq<string> {
    var end := FindCrlf(t, 0);
    if end.None? then [] else LinesOf(t[end.value + 2..])
  }

  const NAME_MAX: nat := 63
  const VALUE_MAX: nat := 31

  predicate IsContentLength(name: string) {
    EqualNoCase(name, "Content-Length")
  }

  predicate IsHopByHop(name: string) {
    IsContentLength(name) || EqualNoCase(name, "Transfer-Encoding") || EqualNoCase(name, "Connection")
  }

  /** A line's name, if it has a colon and the name fits its buffer. */
  function NameOf(line: string): (r: Option<string>)
    ensures r.Some? ==> |r.value| <= NAME_MAX && |r.value| < |line| && r.value == line[..|r.value|]
                        && line[|r.value|] == ':'
  {
    var colon := FindChar(line, ':');
    if colon.None? || colon.value > NAME_MAX then None else Some(line[..colon.value])
  }

  /** The value after the colon and its spaces, cut to what its buffer holds. */
  function LengthText(line: string): (v: string)
    requires NameOf(line).Some?
    ensures |v| <= VALUE_MAX
  {
    Truncated(SkipSpaces(line[|NameOf(line).value| + 1..]), VALUE_MAX)
  }

  /** What the loop decides about a header line. */
  datatype Verdict = Drop | Length(value: string) | Keep(line: string)

  function Judge(line: string): (v: Verdict)
    ensures v.Keep? ==> v.line == line
    ensures v.Length? ==> |v.value| <= VALUE_MAX
  {
    var name := NameOf(line);
    if name.None? then Drop
    else if IsContentLength(name.value) then Length(LengthText(line))
    else if IsHopByHop(name.value) then Drop
    else Keep(line)
  }

  function JudgeAll(lines: seq<string>): (vs: seq<Verdict>)
    ensures |vs| == |lines| && forall k :: 0 <= k < |vs| ==> vs[k] == Judge(lines[k])
  {
    seq(|lines|, k requires 0 <= k < |lines| => Judge(lines[k]))
  }

  // ---- The rewriting as the code does it, in a 2048-byte buffer ----------------------------------

  /** The bytes in the buffer, and the length the code believes it has written. */
  datatype Out = Out(text: string, len: nat)

  predicate Sound(o: Out) {
    |o.text| == Min(o.len, BUF - 1)
  }

  /** `snprintf` at the end, guarded by `out_len < BUF`: cuts the text but counts all of it. */
  function Put(o: Out, s: string): (r: Out)
    requires Sound(o)
    ensures Sound(r) && o.text <= r.text && o.len <= r.len
  {
    if o.len >= BUF then o else Out(o.text + Truncated(s, BUF - 1 - o.len), o.len + |s|)
  }

  /** `memcpy` of a line, left out when it might not fit. */
  function PutLine(o: Out, line: string): (r: Out)
    requires Sound(o)
    ensures Sound(r) && o.text <= r.text && o.len <= r.len
  {
    if o.len + |line| + 4 < BUF then Out(o.text + line + CRLF, o.len + |line| + 2) else o
  }

  datatype Acc = Acc(out: Out, contentLength: Option<nat>)

  function LengthLine(value: string): string {
    "Content-Length: " + value
  }

  function Process(a: Acc, v: Verdict): (r: Acc)
    requires Sound(a.out)
    ensures Sound(r.out)
  {
    match v
    case Drop => a
    case Length(value) => Acc(Put(a.out, LengthLine(value) + CRLF), Some(StrToUl(value)))
    case Keep(line) => a.(out := PutLine(a.out, line))
  }

  function ProcessAll(a: Acc, vs: seq<Verdict>): (r: Acc)
    requires Sound(a.out)
    ensures Sound(r.out)
    decreases |vs|
  {
    if vs == [] then a else Process(ProcessAll(a, vs[..|vs| - 1]), vs[|vs| - 1])
  }

  const CLOSE_LINE: string := "Connection: close"

  function StatusLine(status: string): string {
    "HTTP/1.0 " + status
  }

  /** The rewritten header and the upstream's content length, for a header block `t`. */
  function Rewritten(t: string): (r: Acc)
    ensures Sound(r.out)
  {
    var start := Put(Out("", 0), StatusLine(Status(t)) + CRLF);
    var a := ProcessAll(Acc(start, None), JudgeAll(HeaderLines(t)));
    a.(out := Put(a.out, CLOSE_LINE + CRLF + CRLF))
  }

  // ---- The rewriting as it is meant, without a buffer ------------------------------------------------

  /** What becomes of one header line: dropped, normalized, or kept verbatim. */
  function Kept(v: Verdict): (r: seq<string>)
    ensures |r| <= 1
  {
    match v
    case Drop => []
    case Length(value) => [LengthLine(value)]
    case Keep(line) => [line]
  }

  function KeptOf(vs: seq<Verdict>): seq<string> {
    if vs == [] then [] else KeptOf(vs[..|vs| - 1]) + Kept(vs[|vs| - 1])
  }

  function KeptLines(lines: seq<string>): seq<string> {
    KeptOf(JudgeAll(lines))
  }

  /** Lines with their line ends. */
  function Joined(ls: seq<string>): string {
    if ls == [] then "" else ls[0] + CRLF + Joined(ls[1..])
  }

  function WantedLines(t: string): seq<string> {
    KeptLines(HeaderLines(t)) + [CLOSE_LINE]
  }

  function Wanted(t: string): string {
    Joined([StatusLine(Status(t))] + WantedLines(t)) + CRLF
  }

  lemma {:induction false} JoinedAppend(a: seq<string>, b: seq<string>)
    ensures Joined(a + b) == Joined(a) + Joined(b)
  {
    if a == [] {
      assert a + b == b;
    } else {
      JoinedAppend(a[1..], b);
      assert (a + b)[1..] == a[1..] + b;
      assert a[0] + CRLF + (Joined(a[1..]) + Joined(b)) == a[0] + CRLF + Joined(a[1..]) + Joined(b);
    }
  }

  /** Output that still fits, continued by `s`. */
  function Extended(o: Out, s: string): Out {
    Out(o.text + s, o.len + |s|)
  }

  lemma ExtendedTwice(o: Out, s: string, t: string)
    ensures Extended(Extended(o, s), t) == Extended(o, s + t)
  {
    assert o.text + s + t == o.text + (s + t);
  }

  lemma ProcessIsKept(a: Acc, v: Verdict)
    requires Sound(a.out) && a.out.len + |Joined(Kept(v))| + |CLOSE_LINE| + 4 < BUF
    ensures Process(a, v).out == Extended(a.out, Joined(Kept(v)))
  {
    var k := Kept(v);
    if |k| == 1 {
      assert k[1..] == [];
      assert Joined(k) == k[0] + CRLF;
      assert a.out.text + k[0] + CRLF == a.out.text + (k[0] + CRLF);
    }
  }

  lemma JoinedKeptPush(vs: seq<Verdict>)
    requires vs != []
    ensures Joined(KeptOf(vs)) == Joined(KeptOf(vs[..|vs| - 1])) + Joined(Kept(vs[|vs| - 1]))
  {
    JoinedAppend(KeptOf(vs[..|vs| - 1]), Kept(vs[|vs| - 1]));
  }

  lemma {:induction false} ProcessAllIsKept(a: Acc, vs: seq<Verdict>)
    requires Sound(a.out) && a.out.len + |Joined(KeptOf(vs))| + |CLOSE_LINE| + 4 < BUF
    ensures ProcessAll(a, vs).out == Extended(a.out, Joined(KeptOf(vs)))
    decreases |vs|
  {
    if vs == [] {
      assert a.out.text + "" == a.out.text;
    } else {
      var init, last := vs[..|vs| - 1], vs[|vs| - 1];
      JoinedKeptPush(vs);
      ProcessAllIsKept(a, init);
      ProcessIsKept(ProcessAll(a, init), last);
      ExtendedTwice(a.out, Joined(KeptOf(init)), Joined(Kept(last)));
    }
  }

  lemma WantedParts(t: string)
    ensures Wanted(t) == StatusLine(Status(t)) + CRLF + Joined(KeptLines(HeaderLines(t))) + (CLOSE_LINE + CRLF + CRLF)
  {
    var status, kept := StatusLine(Status(t)), KeptLines(HeaderLines(t));
    assert ([status] + WantedLines(t))[1..] == WantedLines(t);
    JoinedAppend(kept, [CLOSE_LINE]);
    assert Joined([CLOSE_LINE]) == CLOSE_LINE + CRLF by {
      assert [CLOSE_LINE][1..] == [];
    }
  }

  /** The buffered rewriting is the intended one exactly when the result fits the buffer. */
  lemma RewriteIsWantedExactly(t: string)
    ensures Rewritten(t).out == Out(Wanted(t), |Wanted(t)|) <==> |Wanted(t)| < 2048
  {
    WantedParts(t);
    if |Wanted(t)| < BUF {
      var first := StatusLine(Status(t)) + CRLF;
      var start := Put(Out("", 0), first);
      assert start == Out(first, |first|);
      ProcessAllIsKept(Acc(start, None), JudgeAll(HeaderLines(t)));
    }
  }

  // ---- What the intended header says ----------------------------------------------------------------

  ghost predicate NoCrlf(s: string) {
    forall i :: !IsCrlf(s, i)
  }

  ghost predicate GoodLine(l: string) {
    l != "" && NoCrlf(l)
  }

  lemma JoinedFirst(first: string, ls: seq<string>)
    ensures Joined([first] + ls) + CRLF == first + (CRLF + (Joined(ls) + CRLF))
  {
    assert ([first] + ls)[1..] == ls;
    assert Joined([first] + ls) == first + CRLF + Joined(ls);
  }

  /** A line in front of the rest of a text ends where the rest's line end starts. */
  lemma LineThenRest(l: string, tail: string)
    requires NoCrlf(l)
    ensures var s := l + (CRLF + tail);
            FindCrlf(s, 0) == Some(|l|) && s[..|l|] == l && s[|l| + 2..] == tail && (l != "" ==> !IsCrlf(s, 0))
  {
    var s := l + (CRLF + tail);
    assert IsCrlf(s, |l|);
    forall i | 0 <= i < |l| ensures !IsCrlf(s, i) {
      assert !IsCrlf(l, i);
    }
  }

  lemma LinesOfLine(l: string, tail: string)
    requires GoodLine(l)
    ensures LinesOf(l + (CRLF + tail)) == [l] + LinesOf(tail)
  {
    LineThenRest(l, tail);
  }

  lemma {:induction false} LinesOfJoined(ls: seq<string>)
    requires forall k :: 0 <= k < |ls| ==> GoodLine(ls[k])
    ensures LinesOf(Joined(ls) + CRLF) == ls
    decreases |ls|
  {
    if ls == [] {
      assert Joined(ls) + CRLF == CRLF;
    } else {
      var l, rest := ls[0], ls[1..];
      assert ls == [l] + rest;
      JoinedFirst(l, rest);
      LinesOfLine(l, Joined(rest) + CRLF);
      LinesOfJoined(rest);
    }
  }

  lemma HeaderBehindLine(first: string, tail: string)
    requires NoCrlf(first)
    ensures var t := first + (CRLF + tail); FindCrlf(t, 0) == Some(|first|) && HeaderLines(t) == LinesOf(tail)
  {
    LineThenRest(first, tail);
  }

  lemma HeaderOfJoined(first: string, ls: seq<string>)
    requires NoCrlf(first) && forall k :: 0 <= k < |ls| ==> GoodLine(ls[k])
    ensures var t := first + (CRLF + (Joined(ls) + CRLF));
            FindCrlf(t, 0) == Some(|first|) && HeaderLines(t) == ls
  {
    HeaderBehindLine(first, Joined(ls) + CRLF);
    LinesOfJoined(ls);
  }

  lemma NoCrlfInPart(t: string, from: nat, to: nat)
    requires from <= to <= |t| && forall i :: from <= i && i + 2 <= to ==> !IsCrlf(t, i)
    ensures NoCrlf(t[from..to])
  {
    forall i ensures !IsCrlf(t[from..to], i) {
      if 0 <= i && i + 2 <= to - from { assert !IsCrlf(t, from + i); }
    }
  }

  lemma {:induction false} LinesAreGood(s: string)
    ensures forall k :: 0 <= k < |LinesOf(s)| ==> GoodLine(LinesOf(s)[k])
    decreases |s|
  {
    var end := FindCrlf(s, 0);
    if s != "" && !IsCrlf(s, 0) && end.Some? {
      NoCrlfInPart(s, 0, end.value);
      assert s[..end.value] == s[0..end.value];
      LinesAreGood(s[end.value + 2..]);
    }
  }

  lemma StatusHasNoCrlf(t: string)
    ensures NoCrlf(Status(t))
  {
    var sp := FindChar(t, ' ');
    if sp.Some? && FindCrlf(t, sp.value).Some? {
      NoCrlfInPart(t, sp.value + 1, FindCrlf(t, sp.value).value);
    }
  }

  lemma StatusLineHasNoCrlf(status: string)
    requires NoCrlf(status)
    ensures NoCrlf(StatusLine(status))
  {
    forall i ensures !IsCrlf(StatusLine(status), i) {
      if i >= 9 { assert !IsCrlf(status, i - 9); }
    }
  }

  lemma StatusIsGood(t: string)
    ensures NoCrlf(StatusLine(Status(t)))
  {
    StatusHasNoCrlf(t);
    StatusLineHasNoCrlf(Status(t));
  }

  lemma NoCrlfBehind(s: string, from: nat)
    requires NoCrlf(s) && from <= |s|
    ensures NoCrlf(s[from..])
  {
    forall i ensures !IsCrlf(s[from..], i) {
      assert !IsCrlf(s, from + i);
    }
  }

  lemma NoCrlfBefore(s: string, to: nat)
    requires NoCrlf(s) && to <= |s|
    ensures NoCrlf(s[..to])
  {
    forall i ensures !IsCrlf(s[..to], i) {
      assert !IsCrlf(s, i);
    }
  }

  lemma ValueIsGood(rest: string)
    requires NoCrlf(rest)
    ensures var v := Truncated(SkipSpaces(rest), VALUE_MAX); NoCrlf(v) && (v != "" ==> v[0] != ' ')
  {
    var trimmed := SkipSpaces(rest);
    NoCrlfBehind(rest, |rest| - |trimmed|);
    NoCrlfBefore(trimmed, Min(|trimmed|, VALUE_MAX));
  }

  lemma LengthTextIsGood(line: string)
    requires NoCrlf(line) && NameOf(line).Some?
    ensures NoCrlf(LengthText(line)) && (LengthText(line) != "" ==> LengthText(line)[0] != ' ')
  {
    NoCrlfBehind(line, |NameOf(line).value| + 1);
    ValueIsGood(line[|NameOf(line).value| + 1..]);
  }

  lemma PrefixedIsGood(prefix: string, s: string)
    requires NoCrlf(s) && prefix != "" && forall k :: 0 <= k < |prefix| ==> prefix[k] != '\r'
    ensures GoodLine(prefix + s)
  {
    forall i ensures !IsCrlf(prefix + s, i) {
      if i >= |prefix| { assert !IsCrlf(s, i - |prefix|); }
    }
  }

  ghost predicate GoodVerdict(v: Verdict) {
    match v
    case Drop => true
    case Length(value) => NoCrlf(value) && |value| <= VALUE_MAX && (value != "" ==> value[0] != ' ')
    case Keep(line) => GoodLine(line) && NameOf(line).Some? && !IsHopByHop(NameOf(line).value)
  }

  lemma JudgeIsGood(line: string)
    requires GoodLine(line)
    ensures GoodVerdict(Judge(line))
  {
    var v := Judge(line);
    if v.Length? { LengthTextIsGood(line); }
  }

  lemma KeptIsGood(v: Verdict)
    requires GoodVerdict(v)
    ensures forall k :: 0 <= k < |Kept(v)| ==> GoodLine(Kept(v)[k])
  {
    if v.Length? { PrefixedIsGood("Content-Length: ", v.value); }
  }

  lemma {:induction false} KeptOfAreGood(vs: seq<Verdict>)
    requires forall k :: 0 <= k < |vs| ==> GoodVerdict(vs[k])
    ensures forall k :: 0 <= k < |KeptOf(vs)| ==> GoodLine(KeptOf(vs)[k])
  {
    if vs != [] {
      KeptOfAreGood(vs[..|vs| - 1]);
      KeptIsGood(vs[|vs| - 1]);
    }
  }

  lemma HeaderVerdictsAreGood(t: string)
    ensures forall k :: 0 <= k < |HeaderLines(t)| ==> GoodVerdict(JudgeAll(HeaderLines(t))[k])
  {
    var ls := HeaderLines(t);
    var end := FindCrlf(t, 0);
    if end.Some? { LinesAreGood(t[end.value + 2..]); }
    forall k | 0 <= k < |ls| ensures GoodVerdict(JudgeAll(ls)[k]) {
      JudgeIsGood(ls[k]);
    }
  }

  lemma WantedLinesAreGood(t: string)
    ensures forall k :: 0 <= k < |WantedLines(t)| ==> GoodLine(WantedLines(t)[k])
  {
    HeaderVerdictsAreGood(t);
    KeptOfAreGood(JudgeAll(HeaderLines(t)));
    assert GoodLine(CLOSE_LINE);
  }

  lemma StatusIs(t: string, sp: nat, end: nat)
    requires FindChar(t, ' ') == Some(sp) && FindCrlf(t, sp) == Some(end) && sp < end
    ensures Status(t) == if end - (sp + 1) > STATUS_MAX then DEFAULT_STATUS else t[sp + 1..end]
  {
  }

  /** The status of a response: what follows the protocol version, or "200 OK" when it is too long. */
  lemma StatusOfResponse(version: string, status: string, rest: string)
    requires NoCrlf(status) && forall k :: 0 <= k < |version| ==> version[k] != ' '
    ensures Status(version + " " + status + CRLF + rest) == if |status| < 32 then status else "200 OK"
  {
    var t := version + " " + status + CRLF + rest;
    var sp, end := |version|, |version| + 1 + |status|;
    assert forall i :: 0 <= i < sp ==> t[i] == version[i];
    assert FindChar(t, ' ') == Some(sp) by { assert t[sp] == ' '; }
    assert IsCrlf(t, end);
    forall i | sp <= i < end ensures !IsCrlf(t, i) {
      if i > sp { assert !IsCrlf(status, i - sp - 1); }
    }
    assert FindCrlf(t, sp) == Some(end);
    StatusIs(t, sp, end);
    assert t[sp + 1..end] == status;
  }

  lemma StatusLineParses(w: string, status: string)
    requires |status| <= STATUS_MAX && StatusLine(status) <= w
    requires FindCrlf(w, 0) == Some(|StatusLine(status)|)
    ensures Status(w) == status
  {
    var first := StatusLine(status);
    assert forall i :: 0 <= i < |first| ==> w[i] == first[i];
    assert first[8] == ' ' && forall i :: 0 <= i < 8 ==> first[i] != ' ';
    assert FindChar(w, ' ') == Some(8);
    assert FindCrlf(w, 8) == Some(|first|);
    StatusIs(w, 8, |first|);
    assert w[9..|first|] == first[9..] == status;
  }

  /** Parsed again, the rewritten header has the same status and exactly the wanted lines. */
  lemma WantedParsesBack(t: string)
    ensures HeaderLines(Wanted(t)) == WantedLines(t)
    ensures Status(Wanted(t)) == Status(t)
  {
    WantedLinesAreGood(t);
    StatusIsGood(t);
    JoinedFirst(StatusLine(Status(t)), WantedLines(t));
    HeaderOfJoined(StatusLine(Status(t)), WantedLines(t));
    StatusLineParses(Wanted(t), Status(t));
  }

  // ---- Framing -----------------------------------------------------------------------------------------

  predicate IsNamed(line: string, name: string) {
    NameOf(line).Some? && EqualNoCase(NameOf(line).value, name)
  }

  lemma {:induction false} FirstColon(line: string, name: string)
    requires |name| < |line| && name <= line && line[|name|] == ':'
    requires forall k :: 0 <= k < |name| ==> name[k] != ':'
    ensures FindChar(line, ':') == Some(|name|)
  {
    assert forall i :: 0 <= i < |name| ==> line[i] == name[i];
  }

  predicate AllSpaces(s: string) {
    forall k :: 0 <= k < |s| ==> s[k] == ' '
  }

  lemma {:induction false} SpacesAreSkipped(spaces: string, s: string)
    requires AllSpaces(spaces) && (s != "" ==> s[0] != ' ')
    ensures SkipSpaces(spaces + s) == s
  {
    if spaces == "" {
      assert spaces + s == s;
    } else {
      OneSpaceIsSkipped(spaces, s);
      SpacesAreSkipped(spaces[1..], s);
    }
  }

  lemma OneSpaceIsSkipped(spaces: string, s: string)
    requires spaces != "" && spaces[0] == ' '
    ensures SkipSpaces(spaces + s) == SkipSpaces(spaces[1..] + s)
  {
    assert (spaces + s)[1..] == spaces[1..] + s;
  }

  /** A line `name: value`, with any spaces before the value, as a header line's parts. */
  lemma LineParts(line: string, name: string, spaces: string, value: string)
    requires line == name + ":" + (spaces + value) && |name| <= NAME_MAX
    requires forall k :: 0 <= k < |name| ==> name[k] != ':'
    requires AllSpaces(spaces) && (value != "" ==> value[0] != ' ')
    ensures NameOf(line) == Some(name) && LengthText(line) == Truncated(value, VALUE_MAX)
  {
    FirstColon(line, name);
    assert line[..|name|] == name;
    assert line[|name| + 1..] == spaces + value;
    SpacesAreSkipped(spaces, value);
  }

  lemma ContentLengthName(name: string)
    requires IsContentLength(name)
    ensures |name| == 14 && forall k :: 0 <= k < |name| ==> name[k] != ':'
  {
    assert |"Content-Length"| == 14;
    forall k | 0 <= k < |name| ensures name[k] != ':' {
      assert Lower(name[k]) == Lower("Content-Length"[k]);
      assert forall n :: 0 <= n < 14 ==> Lower("Content-Length"[n]) != ':';
    }
  }

  lemma LengthLineSplit(value: string)
    ensures LengthLine(value) == "Content-Length" + ":" + (" " + value)
  {
    assert "Content-Length: " == "Content-Length" + ":" + " ";
  }

  lemma LengthLineParses(value: string)
    requires |value| <= VALUE_MAX && (value != "" ==> value[0] != ' ')
    ensures NameOf(LengthLine(value)) == Some("Content-Length") && Judge(LengthLine(value)) == Length(value)
  {
    LengthLineSplit(value);
    ContentLengthName("Content-Length");
    LineParts(LengthLine(value), "Content-Length", " ", value);
  }

  /** What is dropped, normalized and kept, by a line's name alone. */
  lemma VerdictByName(name: string, rest: string)
    requires forall k :: 0 <= k < |name| ==> name[k] != ':'
    ensures var v, fits := Judge(name + ":" + rest), |name| < 64;
            && (v.Length? <==> fits && EqualNoCase(name, "Content-Length"))
            && (v.Drop? <==> !fits || EqualNoCase(name, "Transfer-Encoding") || EqualNoCase(name, "Connection"))
            && (v.Keep? ==> v.line == name + ":" + rest)
  {
    var line := name + ":" + rest;
    FirstColon(line, name);
    assert line[..|name|] == name;
    assert |"Content-Length"| == 14 && |"Transfer-Encoding"| == 17 && |"Connection"| == 10;
  }

  lemma CloseLineNamed()
    ensures NameOf(CLOSE_LINE) == Some("Connection")
  {
    assert CLOSE_LINE == "Connection" + ":" + (" " + "close");
    LineParts(CLOSE_LINE, "Connection", " ", "close");
  }

  lemma ConnectionIsDropped(line: string)
    requires NameOf(line) == Some("Connection")
    ensures Judge(line) == Drop && IsNamed(line, "Connection")
  {
    assert |"Connection"| == 10 && |"Content-Length"| == 14;
  }

  lemma CloseLineParses()
    ensures Judge(CLOSE_LINE) == Drop && IsNamed(CLOSE_LINE, "Connection")
  {
    CloseLineNamed();
    ConnectionIsDropped(CLOSE_LINE);
  }

  ghost predicate IsFraming(line: string) {
    IsNamed(line, "Transfer-Encoding") || IsNamed(line, "Connection")
  }

  lemma LengthLineIsNotFraming(value: string)
    requires |value| <= VALUE_MAX && (value != "" ==> value[0] != ' ')
    ensures !IsFraming(LengthLine(value)) && Judge(LengthLine(value)) == Length(value)
  {
    LengthLineParses(value);
    FourteenIsNotFraming(LengthLine(value));
  }

  lemma FourteenIsNotFraming(line: string)
    requires NameOf(line).Some? && |NameOf(line).value| == 14
    ensures !IsFraming(line)
  {
    assert |"Transfer-Encoding"| == 17 && |"Connection"| == 10;
  }

  lemma KeptIsNotFraming(v: Verdict)
    requires GoodVerdict(v)
    ensures Kept(v) != [] ==> !IsFraming(Kept(v)[0]) && Judge(Kept(v)[0]) == v
  {
    if v.Length? { LengthLineIsNotFraming(v.value); }
  }

  lemma {:induction false} KeptLinesStay(vs: seq<Verdict>)
    requires forall k :: 0 <= k < |vs| ==> GoodVerdict(vs[k])
    ensures forall k :: 0 <= k < |KeptOf(vs)| ==> !IsFraming(KeptOf(vs)[k])
    ensures KeptLines(KeptOf(vs)) == KeptOf(vs)
  {
    if vs != [] {
      var init, last := vs[..|vs| - 1], vs[|vs| - 1];
      KeptLinesStay(init);
      KeptIsNotFraming(last);
      KeptLinesAppend(KeptOf(init), Kept(last));
    }
  }

  lemma KeptOfPush(vs: seq<Verdict>, v: Verdict)
    ensures KeptOf(vs + [v]) == KeptOf(vs) + Kept(v)
  {
    assert (vs + [v])[..|vs|] == vs;
  }

  lemma KeptLinesAppend(ls: seq<string>, k: seq<string>)
    requires |k| <= 1
    ensures KeptLines(ls + k) == KeptLines(ls) + (if k == [] then [] else Kept(Judge(k[0])))
  {
    if k == [] {
      assert ls + k == ls;
    } else {
      var v := Judge(k[0]);
      assert JudgeAll(ls + k) == JudgeAll(ls) + [v];
      KeptOfPush(JudgeAll(ls), v);
    }
  }

  /** No upstream framing survives: no Transfer-Encoding, and the only Connection is the final one. */
  lemma WantedFraming(t: string)
    ensures var ls := WantedLines(t);
            && ls[|ls| - 1] == CLOSE_LINE && IsNamed(CLOSE_LINE, "Connection")
            && forall k :: 0 <= k < |ls| - 1 ==> !IsFraming(ls[k])
  {
    HeaderVerdictsAreGood(t);
    KeptLinesStay(JudgeAll(HeaderLines(t)));
    CloseLineParses();
  }

  /** Rewriting a rewritten header changes nothing. */
  lemma WantedIsIdempotent(t: string)
    ensures Wanted(Wanted(t)) == Wanted(t)
  {
    WantedParsesBack(t);
    HeaderVerdictsAreGood(t);
    var kept := KeptLines(HeaderLines(t));
    KeptLinesStay(JudgeAll(HeaderLines(t)));
    CloseLineParses();
    KeptLinesAppend(kept, [CLOSE_LINE]);
    assert KeptLines(HeaderLines(Wanted(t))) == kept;
  }

  // ---- What the client still reads -----------------------------------------------------------------------

  /** A line with a colon, a name under 64 bytes, and a name that does not frame the body. */
  ghost predicate Survives(line: string) {
    exists c :: 0 <= c < 64 && c < |line| && IsFirstColon(line, c)
                && !EqualNoCase(line[..c], "Content-Length") && !EqualNoCase(line[..c], "Transfer-Encoding")
                && !EqualNoCase(line[..c], "Connection")
  }

  predicate IsFirstColon(line: string, c: int) {
    0 <= c < |line| && line[c] == ':' && forall k :: 0 <= k < c ==> line[k] != ':'
  }

  lemma SurvivesIsKept(line: string)
    ensures Survives(line) <==> Judge(line).Keep?
  {
    var colon := FindChar(line, ':');
    if colon.Some? {
      assert IsFirstColon(line, colon.value);
      forall c | IsFirstColon(line, c) ensures c == colon.value {
      }
    }
  }

  /** The surviving lines of a header, verbatim and in order. */
  ghost function Verbatim(lines: seq<string>): seq<string> {
    if lines == [] then [] else
      var last := lines[|lines| - 1];
      Verbatim(lines[..|lines| - 1]) + (if Survives(last) then [last] else [])
  }

  lemma VerbatimPush(lines: seq<string>, line: string)
    ensures Verbatim(lines + [line]) == Verbatim(lines) + (if Survives(line) then [line] else [])
  {
    assert (lines + [line])[..|lines|] == lines;
  }

  lemma VerbatimOfOne(lines: seq<string>, v: Verdict)
    requires GoodVerdict(v)
    ensures Verbatim(lines + Kept(v)) == Verbatim(lines) + (if v.Keep? then [v.line] else [])
  {
    KeptIsNotFraming(v);
    if Kept(v) == [] {
      assert lines + Kept(v) == lines;
    } else {
      SurvivesIsKept(Kept(v)[0]);
      VerbatimPush(lines, Kept(v)[0]);
    }
  }

  /** The lines that verdicts keep. */
  function KeptVerbatim(vs: seq<Verdict>): seq<string> {
    if vs == [] then [] else
      KeptVerbatim(vs[..|vs| - 1]) + (if vs[|vs| - 1].Keep? then [vs[|vs| - 1].line] else [])
  }

  lemma {:induction false} KeptSurvive(vs: seq<Verdict>)
    requires forall k :: 0 <= k < |vs| ==> GoodVerdict(vs[k])
    ensures Verbatim(KeptOf(vs)) == KeptVerbatim(vs)
  {
    if vs != [] {
      KeptSurvive(vs[..|vs| - 1]);
      VerbatimOfOne(KeptOf(vs[..|vs| - 1]), vs[|vs| - 1]);
    }
  }

  lemma KeptVerbatimPush(vs: seq<Verdict>, line: string)
    ensures KeptVerbatim(vs + [Judge(line)]) == KeptVerbatim(vs) + (if Survives(line) then [line] else [])
  {
    assert (vs + [Judge(line)])[..|vs|] == vs;
    SurvivesIsKept(line);
  }

  lemma {:induction false} SurvivorsAreKept(lines: seq<string>)
    ensures KeptVerbatim(JudgeAll(lines)) == Verbatim(lines)
  {
    if lines != [] {
      var init, last := lines[..|lines| - 1], lines[|lines| - 1];
      SurvivorsAreKept(init);
      assert JudgeAll(lines) == JudgeAll(init) + [Judge(last)];
      KeptVerbatimPush(JudgeAll(init), last);
    }
  }

  /**
   Every line of the upstream's header with a colon, a name under 64 bytes and no framing name is
   a line of the rewritten one, verbatim and in order, and no other line but framing is.
   */
  lemma HeadersSurvive(t: string)
    ensures Verbatim(HeaderLines(Wanted(t))) == Verbatim(HeaderLines(t))
    ensures forall k :: 0 <= k < |WantedLines(t)| ==>
              || Survives(WantedLines(t)[k]) || IsNamed(WantedLines(t)[k], "Content-Length")
              || (k == |WantedLines(t)| - 1 && WantedLines(t)[k] == "Connection: close")
  {
    var lines := HeaderLines(t);
    WantedParsesBack(t);
    HeaderVerdictsAreGood(t);
    KeptSurvive(JudgeAll(lines));
    SurvivorsAreKept(lines);
    CloseLineParses();
    SurvivesIsKept(CLOSE_LINE);
    VerbatimPush(KeptLines(lines), CLOSE_LINE);
    KeptSurviveOrAnnounce(JudgeAll(lines));
  }

  lemma {:induction false} KeptSurviveOrAnnounce(vs: seq<Verdict>)
    requires forall k :: 0 <= k < |vs| ==> GoodVerdict(vs[k])
    ensures forall k :: 0 <= k < |KeptOf(vs)| ==> Survives(KeptOf(vs)[k]) || IsNamed(KeptOf(vs)[k], "Content-Length")
  {
    if vs != [] {
      var last := vs[|vs| - 1];
      KeptSurviveOrAnnounce(vs[..|vs| - 1]);
      KeptIsNotFraming(last);
      if last.Keep? { SurvivesIsKept(last.line); }
      if last.Length? { LengthLineParses(last.value); }
    }
  }

  function NotDropped(vs: seq<Verdict>): seq<Verdict> {
    if vs == [] then [] else
      var init, last := vs[..|vs| - 1], vs[|vs| - 1];
      if last.Drop? then NotDropped(init) else NotDropped(init) + [last]
  }

  lemma JudgePush(lines: seq<string>, k: seq<string>)
    requires |k| <= 1
    ensures JudgeAll(lines + k) == JudgeAll(lines) + (if k == [] then [] else [Judge(k[0])])
  {
  }

  lemma {:induction false} KeptAreJudgedAlike(vs: seq<Verdict>)
    requires forall k :: 0 <= k < |vs| ==> GoodVerdict(vs[k])
    ensures JudgeAll(KeptOf(vs)) == NotDropped(vs)
  {
    if vs != [] {
      var init, last := vs[..|vs| - 1], vs[|vs| - 1];
      KeptAreJudgedAlike(init);
      KeptIsNotFraming(last);
      JudgePush(KeptOf(init), Kept(last));
    }
  }

  lemma ProcessPush(a: Acc, vs: seq<Verdict>, v: Verdict)
    requires Sound(a.out)
    ensures ProcessAll(a, vs + [v]) == Process(ProcessAll(a, vs), v)
  {
    assert (vs + [v])[..|vs|] == vs;
  }

  lemma {:induction false} DroppedDoNotCount(a: Acc, b: Acc, vs: seq<Verdict>)
    requires Sound(a.out) && Sound(b.out) && a.contentLength == b.contentLength
    ensures ProcessAll(a, vs).contentLength == ProcessAll(b, NotDropped(vs)).contentLength
  {
    if vs != [] {
      var init, last := vs[..|vs| - 1], vs[|vs| - 1];
      DroppedDoNotCount(a, b, init);
      if !last.Drop? { ProcessPush(b, NotDropped(init), last); }
    }
  }

  lemma ContentLengthOf(t: string, a: Acc)
    requires Sound(a.out) && a.contentLength == None
    ensures Rewritten(t).contentLength == ProcessAll(a, NotDropped(JudgeAll(HeaderLines(t)))).contentLength
  {
    var start := Put(Out("", 0), StatusLine(Status(t)) + CRLF);
    DroppedDoNotCount(Acc(start, None), a, JudgeAll(HeaderLines(t)));
  }

  lemma {:induction false} DroppedTwice(vs: seq<Verdict>)
    ensures NotDropped(NotDropped(vs)) == NotDropped(vs)
  {
    if vs != [] {
      var init, last := vs[..|vs| - 1], vs[|vs| - 1];
      DroppedTwice(init);
      if !last.Drop? { assert (NotDropped(init) + [last])[..|NotDropped(init)|] == NotDropped(init); }
    }
  }

  lemma VerdictsOfWanted(t: string)
    ensures NotDropped(JudgeAll(HeaderLines(Wanted(t)))) == NotDropped(JudgeAll(HeaderLines(t)))
  {
    var vs := JudgeAll(HeaderLines(t));
    WantedParsesBack(t);
    HeaderVerdictsAreGood(t);
    KeptAreJudgedAlike(vs);
    CloseLineParses();
    JudgePush(KeptLines(HeaderLines(t)), [CLOSE_LINE]);
    assert (NotDropped(vs) + [Drop])[..|NotDropped(vs)|] == NotDropped(vs);
    DroppedTwice(vs);
  }

  /** The rewritten header announces the same body length as the upstream's. */
  lemma LengthSurvives(t: string)
    ensures Rewritten(Wanted(t)).contentLength == Rewritten(t).contentLength
  {
    var a := Acc(Out("", 0), None);
    VerdictsOfWanted(t);
    ContentLengthOf(t, a);
    ContentLengthOf(Wanted(t), a);
  }

  /** In the buffer a line is copied whole, or left out exactly if the blank line behind it would not fit. */
  lemma LineTakenExactly(o: Out, line: string)
    requires Sound(o) && o.len < 2048
    ensures PutLine(o, line) == (if |o.text + line + CRLF + CRLF| < 2048 then Out(o.text + line + CRLF, o.len + |line| + 2) else o)
  {
  }

  // ---- The announced length -----------------------------------------------------------------------------

  predicate IsDigit(c: char) {
    '0' <= c <= '9'
  }

  predicate AllDigits(s: string) {
    s != "" && forall k :: 0 <= k < |s| ==> IsDigit(s[k])
  }

  /** The number that decimal digits stand for, leading zeros or not. */
  function NumberOf(s: string): nat
    requires forall k :: 0 <= k < |s| ==> IsDigit(s[k])
  {
    if s == "" then 0 else
      assert IsDigit(s[|s| - 1]);
      NumberOf(s[..|s| - 1]) * 10 + (s[|s| - 1] as int - '0' as int)
  }

  /** Scanning from the left gives the number, whatever follows the digits. */
  lemma {:induction false} DigitsAreRead(done: string, s: string, tail: string)
    requires forall k :: 0 <= k < |done| ==> IsDigit(done[k])
    requires forall k :: 0 <= k < |s| ==> IsDigit(s[k])
    requires tail == "" || !IsDigit(tail[0])
    ensures DigitsValue(s + tail, NumberOf(done)) == NumberOf(done + s)
    decreases |s|
  {
    if s == "" {
      assert s + tail == tail && done + s == done;
    } else {
      var next := done + [s[0]];
      assert next[..|done|] == done;
      DigitsAreRead(next, s[1..], tail);
      assert (s + tail)[0] == s[0] && (s + tail)[1..] == s[1..] + tail;
      assert next + s[1..] == done + s;
    }
  }

  lemma UnsignedIsRead(t: string)
    requires t != "" && IsDigit(t[0])
    ensures StrToUl(t) == Min(DigitsValue(t, 0), U32 - 1)
  {
  }

  /** `strtoul` of digits is their number, or 2^32 - 1 if that is too large. */
  lemma NumberIsRead(s: string, tail: string)
    requires AllDigits(s) && (tail == "" || !IsDigit(tail[0]))
    ensures StrToUl(s + tail) == Min(NumberOf(s), U32 - 1)
  {
    assert IsDigit(s[0]) && (s + tail)[0] == s[0];
    UnsignedIsRead(s + tail);
    assert "" + s == s;
    DigitsAreRead("", s, tail);
  }

  lemma {:induction false} LastLengthWins(a: Acc, vs: seq<Verdict>, k: nat)
    requires Sound(a.out) && k < |vs| && vs[k].Length?
    requires forall j :: k < j < |vs| ==> !vs[j].Length?
    ensures ProcessAll(a, vs).contentLength == Some(StrToUl(vs[k].value))
    decreases |vs|
  {
    if k < |vs| - 1 {
      LastLengthWins(a, vs[..|vs| - 1], k);
    }
  }

  lemma {:induction false} NoLengthNoChange(a: Acc, vs: seq<Verdict>)
    requires Sound(a.out) && forall j :: 0 <= j < |vs| ==> !vs[j].Length?
    ensures ProcessAll(a, vs).contentLength == a.contentLength
    decreases |vs|
  {
    if vs != [] {
      NoLengthNoChange(a, vs[..|vs| - 1]);
    }
  }

  /** A line that announces a length: any letter case, spaces, digits, and what follows them. */
  ghost predicate Announces(line: string, name: string, spaces: string, digits: string, tail: string) {
    && line == name + ":" + (spaces + (digits + tail)) && IsContentLength(name)
    && AllSpaces(spaces) && AllDigits(digits) && (tail == "" || !IsDigit(tail[0]))
  }

  lemma AnnouncementIsLength(line: string, name: string, spaces: string, digits: string, tail: string)
    requires Announces(line, name, spaces, digits, tail)
    ensures Judge(line) == Length(Truncated(digits + tail, VALUE_MAX))
  {
    ContentLengthName(name);
    assert (digits + tail)[0] == digits[0];
    LineParts(line, name, spaces, digits + tail);
  }

  lemma RewrittenLength(t: string, k: nat, value: string)
    requires k < |HeaderLines(t)| && Judge(HeaderLines(t)[k]) == Length(value)
    requires forall j :: k < j < |HeaderLines(t)| ==> !Judge(HeaderLines(t)[j]).Length?
    ensures Rewritten(t).contentLength == Some(StrToUl(value))
  {
    var start := Put(Out("", 0), StatusLine(Status(t)) + CRLF);
    LastLengthWins(Acc(start, None), JudgeAll(HeaderLines(t)), k);
  }

  lemma CutDigits(digits: string, tail: string)
    requires AllDigits(digits) && (tail == "" || !IsDigit(tail[0]))
    ensures StrToUl(Truncated(digits + tail, VALUE_MAX)) == Min(NumberOf(Truncated(digits, VALUE_MAX)), U32 - 1)
  {
    if |digits| <= VALUE_MAX {
      var rest := Truncated(tail, VALUE_MAX - |digits|);
      assert Truncated(digits + tail, VALUE_MAX) == digits + rest;
      NumberIsRead(digits, rest);
    } else {
      assert Truncated(digits + tail, VALUE_MAX) == digits[..VALUE_MAX] + "";
      NumberIsRead(digits[..VALUE_MAX], "");
    }
  }

  /**
   The last line that announces a length decides, and is read as the number of its first 31
   digits, or as 2^32 - 1 if that is larger: in any letter case, behind any spaces, with leading
   zeros, and whatever follows the digits.
   */
  lemma AnnouncedLengthIsRead(t: string, k: nat, name: string, spaces: string, digits: string, tail: string)
    requires k < |HeaderLines(t)| && Announces(HeaderLines(t)[k], name, spaces, digits, tail)
    requires forall j :: k < j < |HeaderLines(t)| ==> !Judge(HeaderLines(t)[j]).Length?
    ensures Rewritten(t).contentLength == Some(Min(NumberOf(Truncated(digits, 31)), 0xFFFF_FFFF))
  {
    AnnouncementIsLength(HeaderLines(t)[k], name, spaces, digits, tail);
    RewrittenLength(t, k, Truncated(digits + tail, VALUE_MAX));
    CutDigits(digits, tail);
  }

  lemma UnannouncedLength(t: string)
    requires forall j :: 0 <= j < |HeaderLines(t)| ==> !Judge(HeaderLines(t)[j]).Length?
    ensures Rewritten(t).contentLength == None
  {
    var start := Put(Out("", 0), StatusLine(Status(t)) + CRLF);
    NoLengthNoChange(Acc(start, None), JudgeAll(HeaderLines(t)));
  }

  // ---- The blank line ------------------------------------------------------------------------------------

  /** The blank line that ends a header block, starting with the line end before it. */
  predicate BlankAt(t: string, i: int) {
    IsCrlf(t, i) && IsCrlf(t, i + 2)
  }

  /** Behind a line without line ends, a blank line can only start at the line's own end. */
  lemma BlankBehindLine(l: string, tail: string, i: int)
    requires NoCrlf(l)
    ensures BlankAt(l + (CRLF + tail), i) <==> (i == |l| && IsCrlf(tail, 0)) || BlankAt(tail, i - (|l| + 2))
  {
    var t := l + (CRLF + tail);
    assert t[|l|] == '\r' && t[|l| + 1] == '\n';
    assert forall k :: 0 <= k < |tail| ==> t[|l| + 2 + k] == tail[k];
    assert IsCrlf(tail, 0) <==> IsCrlf(t, |l| + 2);
    if 0 <= i < |l| {
      assert !IsCrlf(l, i);
      assert t[i] == l[i] && t[i + 1] == (if i + 1 < |l| then l[i + 1] else '\r');
      assert !IsCrlf(t, i);
    }
  }

  lemma {:induction false} BlankOnlyAtEnd(ls: seq<string>, i: int)
    requires ls != [] && forall k :: 0 <= k < |ls| ==> GoodLine(ls[k])
    ensures var t := Joined(ls) + CRLF; BlankAt(t, i) <==> i == |t| - 4
    decreases |ls|
  {
    var l, rest := ls[0], ls[1..];
    var tail := Joined(rest) + CRLF;
    assert ls == [l] + rest;
    JoinedFirst(l, rest);
    BlankBehindLine(l, tail, i);
    if rest == [] {
      assert tail == CRLF;
    } else {
      JoinedFirst(rest[0], rest[1..]);
      assert rest == [rest[0]] + rest[1..];
      assert GoodLine(rest[0]) && !IsCrlf(rest[0], 0);
      assert !IsCrlf(tail, 0);
      BlankOnlyAtEnd(rest, i - (|l| + 2));
    }
  }

  /** The rewritten header ends in a blank line and contains no other. */
  lemma WantedHasOneBlank(t: string, i: int)
    ensures BlankAt(Wanted(t), i) <==> i == |Wanted(t)| - 4
  {
    WantedLinesAreGood(t);
    StatusIsGood(t);
    var ls := [StatusLine(Status(t))] + WantedLines(t);
    BlankOnlyAtEnd(ls, i);
  }

  // ---- Independence of what follows the block -------------------------------------------------------------

  /** No line of a block ends one character before its blank line. */
  lemma LineEndInBlock(b: string, at: nat)
    requires |b| >= 4 && BlankAt(b, |b| - 4) && at <= |b| - 4
    ensures FindCrlf(b, at).Some? && FindCrlf(b, at).value <= |b| - 4
    ensures FindCrlf(b, at).value + 2 <= |b| - 4 || FindCrlf(b, at).value + 2 == |b| - 2
  {
    var end := FindCrlf(b, at);
    assert end.Some? && end.value <= |b| - 4;
    assert b[end.value + 1] == '\n' && b[|b| - 4] == '\r';
  }

  /** A block, or what is left of one behind its last line. */
  predicate EndsInBlank(b: string) {
    b == CRLF || (|b| >= 4 && BlankAt(b, |b| - 4))
  }

  lemma RestEndsInBlank(b: string, at: nat)
    requires EndsInBlank(b) && (at <= |b| - 4 || at == |b| - 2)
    ensures EndsInBlank(b[at..])
  {
    if at <= |b| - 4 {
      assert forall k :: 0 <= k < |b| - at ==> b[at..][k] == b[at + k];
    } else {
      assert b[at..] == CRLF;
    }
  }

  lemma {:induction false} LinesOfPrefix(b: string, t: string)
    requires b <= t && EndsInBlank(b)
    ensures LinesOf(t) == LinesOf(b)
    decreases |b|
  {
    assert IsCrlf(t, 0) <==> IsCrlf(b, 0);
    if !IsCrlf(b, 0) {
      LineEndInBlock(b, 0);
      SameCrlf(b, t, 0);
      var end := FindCrlf(b, 0).value;
      RestEndsInBlank(b, end + 2);
      assert t[..end] == b[..end] && b[end + 2..] <= t[end + 2..];
      LinesOfPrefix(b[end + 2..], t[end + 2..]);
    }
  }

  lemma SameCrlf(b: string, t: string, at: nat)
    requires b <= t && FindCrlf(b, at).Some?
    ensures FindCrlf(t, at) == FindCrlf(b, at)
  {
    var end := FindCrlf(b, at).value;
    assert IsCrlf(t, end);
    forall i | at <= i < end ensures !IsCrlf(t, i) {
      assert !IsCrlf(b, i);
    }
  }

  lemma {:induction false} SameChar(b: string, t: string, c: char)
    requires b <= t && FindChar(b, c).Some?
    ensures FindChar(t, c) == FindChar(b, c)
  {
    if b[0] != c {
      SameChar(b[1..], t[1..], c);
    }
  }

  lemma {:induction false} PrefixOfCText(b: string, h: string)
    requires b <= h && forall k :: 0 <= k < |b| ==> b[k] != '\0'
    ensures b <= CText(h)
  {
    if b != "" {
      PrefixOfCText(b[1..], h[1..]);
      assert b == [b[0]] + b[1..];
    }
  }

  predicate IsBlock(b: string) {
    |b| >= 4 && BlankAt(b, |b| - 4) && forall k :: 0 <= k < |b| ==> b[k] != '\0'
  }

  /** Where the first space and its line's end are found in a block. */
  lemma SpaceInBlock(b: string) returns (sp: nat, end: nat)
    requires |b| >= 4 && BlankAt(b, |b| - 4) && FindChar(b, ' ').Some?
    ensures FindChar(b, ' ') == Some(sp) && FindCrlf(b, sp) == Some(end) && sp < end
  {
    sp := FindChar(b, ' ').value;
    assert sp <= |b| - 4 by {
      assert b[|b| - 4] == '\r' && b[|b| - 3] == '\n' && b[|b| - 2] == '\r' && b[|b| - 1] == '\n';
    }
    LineEndInBlock(b, sp);
    end := FindCrlf(b, sp).value;
    assert b[sp] == ' ' && b[end] == '\r';
  }

  lemma SameStatus(b: string, t: string, sp: nat, end: nat)
    requires b <= t && sp < end <= |b|
    requires FindChar(b, ' ') == FindChar(t, ' ') == Some(sp) && FindCrlf(b, sp) == FindCrlf(t, sp) == Some(end)
    ensures Status(t) == Status(b)
  {
    StatusIs(b, sp, end);
    StatusIs(t, sp, end);
    assert t[sp + 1..end] == b[sp + 1..end];
  }

  lemma StatusOfPrefix(b: string, t: string)
    requires b <= t && |b| >= 4 && BlankAt(b, |b| - 4) && FindChar(b, ' ').Some?
    ensures Status(t) == Status(b)
  {
    var sp, end := SpaceInBlock(b);
    SameChar(b, t, ' ');
    SameCrlf(b, t, sp);
    SameStatus(b, t, sp, end);
  }

  lemma HeaderLinesOfPrefix(b: string, t: string)
    requires b <= t && |b| >= 4 && BlankAt(b, |b| - 4)
    ensures HeaderLines(t) == HeaderLines(b)
  {
    LineEndInBlock(b, 0);
    SameCrlf(b, t, 0);
    var at := FindCrlf(b, 0).value + 2;
    RestEndsInBlank(b, at);
    assert b[at..] <= t[at..];
    LinesOfPrefix(b[at..], t[at..]);
  }

  lemma RewriteReads(t: string, b: string)
    requires Status(t) == Status(b) && HeaderLines(t) == HeaderLines(b)
    ensures Rewritten(t) == Rewritten(b)
  {
  }

  /** Bytes read beyond a block with a space in it do not change the rewritten header. */
  lemma RewriteIgnoresTheRest(b: string, h: string)
    requires IsBlock(b) && b <= h && FindChar(b, ' ').Some?
    ensures Rewritten(CText(h)) == Rewritten(b)
  {
    PrefixOfCText(b, h);
    StatusOfPrefix(b, CText(h));
    HeaderLinesOfPrefix(b, CText(h));
    RewriteReads(CText(h), b);
  }

  /** Without a space in the block the status is taken from whatever body was read along with it. */
  lemma SpacelessBlockIsAmbiguous(b: string, x: string)
    requires IsBlock(b) && FindChar(b, ' ').None?
    requires NoCrlf(x) && |x| <= STATUS_MAX
    ensures Status(b) == DEFAULT_STATUS && Status(b + " " + x + CRLF) == x
  {
    StatusOfResponse(b, x, "");
    assert b + " " + x + CRLF + "" == b + " " + x + CRLF;
  }
}
