/**
 Percent coding, `main/http_utils.c`, with the buffer limits of its loops. A C string is the
 sequence of its bytes before the NUL; buffers are arrays that must also hold the NUL.
 */
module HttpUtils {
  import opened Prelude

  const PERCENT: Byte := 0x25
  const PLUS: Byte := 0x2B
  const SPACE: Byte := 0x20

  predicate IsCString(s: seq<Byte>) {
    forall k :: 0 <= k < |s| ==> s[k] != 0
  }

  predicate Unreserved(c: Byte) {
    0x41 <= c <= 0x5A || 0x61 <= c <= 0x7A || 0x30 <= c <= 0x39 || c == 0x2D || c == 0x5F || c == 0x2E || c == 0x7E
  }

  /** The digit that `%X` prints. */
  function UpperHex(v: int): Byte
    requires 0 <= v < 16
  {
    if v < 10 then 0x30 + v else 0x41 + (v - 10)
  }

  function HexVal(c: Byte): (v: int)
    ensures -1 <= v < 16
  {
    if 0x30 <= c <= 0x39 then c - 0x30
    else if 0x61 <= c <= 0x66 then c - 0x61 + 10
    else if 0x41 <= c <= 0x46 then c - 0x41 + 10
    else -1
  }

  // ---- Encoding ---------------------------------------------------------------------------

  function EncodeByte(c: Byte): (e: seq<Byte>)
    ensures 1 <= |e| <= 3
  {
    if Unreserved(c) then [c] else [PERCENT, UpperHex(c / 16), UpperHex(c % 16)]
  }

  function EncodeAll(s: seq<Byte>): (e: seq<Byte>)
    ensures |s| <= |e| <= 3 * |s|
  {
    if s == [] then [] else EncodeByte(s[0]) + EncodeAll(s[1..])
  }

  /** How many bytes of `s` are encoded once `w` bytes of a buffer of size `n` are used. */
  function EncodedCount(s: seq<Byte>, w: nat, n: nat): (k: nat)
    ensures k <= |s|
  {
    if s == [] || w + 4 >= n then 0 else 1 + EncodedCount(s[1..], w + |EncodeByte(s[0])|, n)
  }

  /** What `url_encode` leaves in a buffer of size `n`. */
  function Encoded(s: seq<Byte>, n: nat): seq<Byte> {
    EncodeAll(s[..EncodedCount(s, 0, n)])
  }

  /** One turn of the loop; `snprintf` closes an escape with a NUL. */
  method PutEncoded(c: Byte, dst: array<Byte>, w: nat) returns (w': nat)
    requires w + 4 <= dst.Length
    modifies dst
    ensures w' == w + |EncodeByte(c)| && dst[..w'] == old(dst[..w]) + EncodeByte(c)
    ensures forall k :: w + 4 <= k < dst.Length ==> dst[k] == old(dst[k])
  {
    if Unreserved(c) {
      dst[w] := c;
      w' := w + 1;
    } else {
      dst[w], dst[w + 1], dst[w + 2], dst[w + 3] := PERCENT, UpperHex(c / 16), UpperHex(c % 16), 0;
      w' := w + 3;
    }
  }

  /** The loop has encoded `i` bytes of `src` into `written`. */
  predicate EncodedUpTo(src: seq<Byte>, i: nat, n: nat, written: seq<Byte>) {
    && i <= |src| && written == EncodeAll(src[..i])
    && EncodedCount(src, 0, n) == i + EncodedCount(src[i..], |written|, n)
  }

  lemma CountOneMore(src: seq<Byte>, i: nat, w: nat, n: nat)
    requires i < |src| && w + 4 < n
    ensures EncodedCount(src[i..], w, n) == 1 + EncodedCount(src[i + 1..], w + |EncodeByte(src[i])|, n)
  {
    assert src[i..][1..] == src[i + 1..];
  }

  lemma EncodeOneMore(src: seq<Byte>, i: nat, n: nat, written: seq<Byte>)
    requires i < |src| && |written| + 4 < n && EncodedUpTo(src, i, n, written)
    ensures EncodedUpTo(src, i + 1, n, written + EncodeByte(src[i]))
  {
    EncodeAppend(src[..i], src[i]);
    assert src[..i + 1] == src[..i] + [src[i]];
    CountOneMore(src, i, |written|, n);
  }

  lemma EncodingEnds(src: seq<Byte>, i: nat, n: nat, written: seq<Byte>)
    requires EncodedUpTo(src, i, n, written) && (i == |src| || |written| + 4 >= n)
    ensures written == Encoded(src, n)
  {
  }

  method UrlEncode(src: seq<Byte>, dst: array<Byte>, n: nat) returns (w: nat)
    requires IsCString(src) && 1 <= n <= dst.Length
    modifies dst
    ensures w == |Encoded(src, n)| < n && dst[..w] == Encoded(src, n) && dst[w] == 0
    ensures forall k :: n <= k < dst.Length ==> dst[k] == old(dst[k])
  {
    w := 0;
    var i := 0;
    assert src[..0] == [] && src[0..] == src;
    while i < |src| && w + 4 < n
      invariant 0 <= i <= |src| && w < n
      invariant EncodedUpTo(src, i, n, dst[..w])
      invariant forall k :: n <= k < dst.Length ==> dst[k] == old(dst[k])
    {
      EncodeOneMore(src, i, n, dst[..w]);
      w := PutEncoded(src[i], dst, w);
      i := i + 1;
    }
    EncodingEnds(src, i, n, dst[..w]);
    dst[w] := 0;
  }

  lemma Regroup(a: seq<Byte>, b: seq<Byte>, c: seq<Byte>)
    ensures a + (b + c) == (a + b) + c
  {
  }

  lemma EncodeCons(c: Byte, s: seq<Byte>)
    ensures EncodeAll([c] + s) == EncodeByte(c) + EncodeAll(s)
  {
    assert ([c] + s)[1..] == s;
  }

  lemma {:induction false} EncodeAppend(s: seq<Byte>, c: Byte)
    ensures EncodeAll(s + [c]) == EncodeAll(s) + EncodeByte(c)
  {
    if s == [] {
      EncodeCons(c, []);
      assert [c] + [] == [c] == s + [c];
    } else {
      EncodeAppend(s[1..], c);
      EncodeCons(s[0], s[1..] + [c]);
      assert s + [c] == [s[0]] + (s[1..] + [c]);
      Regroup(EncodeByte(s[0]), EncodeAll(s[1..]), EncodeByte(c));
    }
  }

  /** Before each of the first `j` bytes there is still room for an escape and the NUL. */
  ghost predicate RoomBefore(s: seq<Byte>, w: nat, n: nat, j: nat)
    requires j <= |s|
  {
    forall i :: 0 <= i < j ==> w + |EncodeAll(s[..i])| + 4 < n
  }

  lemma PrefixCons(s: seq<Byte>, i: nat)
    requires 0 < i <= |s|
    ensures |EncodeAll(s[..i])| == |EncodeByte(s[0])| + |EncodeAll(s[1..][..i - 1])|
  {
    assert s[..i][1..] == s[1..][..i - 1];
  }

  lemma RoomBeforeCons(s: seq<Byte>, w: nat, n: nat, j: nat)
    requires 0 < j <= |s|
    ensures RoomBefore(s, w, n, j) <==> w + 4 < n && RoomBefore(s[1..], w + |EncodeByte(s[0])|, n, j - 1)
  {
    var w' := w + |EncodeByte(s[0])|;
    assert s[..0] == [];
    if RoomBefore(s, w, n, j) {
      assert w + |EncodeAll(s[..0])| + 4 < n;
      forall i | 0 <= i < j - 1 ensures w' + |EncodeAll(s[1..][..i])| + 4 < n {
        PrefixCons(s, i + 1);
        assert w + |EncodeAll(s[..i + 1])| + 4 < n;
      }
    }
    if w + 4 < n && RoomBefore(s[1..], w', n, j - 1) {
      forall i | 0 <= i < j ensures w + |EncodeAll(s[..i])| + 4 < n {
        if i > 0 { PrefixCons(s, i); }
      }
    }
  }

  /** The encoder stops at the end or when an escape might no longer fit: never inside one. */
  lemma {:induction false} EncodedCountIsMaximal(s: seq<Byte>, w: nat, n: nat, j: nat)
    requires j <= |s|
    ensures j <= EncodedCount(s, w, n) <==> RoomBefore(s, w, n, j)
    decreases |s|
  {
    if j > 0 {
      RoomBeforeCons(s, w, n, j);
      if w + 4 < n {
        EncodedCountIsMaximal(s[1..], w + |EncodeByte(s[0])|, n, j - 1);
      }
    }
  }

  /** Text over unreserved characters and %XX escapes with upper-case digits: RFC 3986, 2.1 and 2.3. */
  predicate PercentEncoded(e: seq<Byte>) {
    e == []
    || (Unreserved(e[0]) && PercentEncoded(e[1..]))
    || (|e| >= 3 && e[0] == PERCENT && IsUpperHex(e[1]) && IsUpperHex(e[2]) && PercentEncoded(e[3..]))
  }

  predicate IsUpperHex(c: Byte) {
    0x30 <= c <= 0x39 || 0x41 <= c <= 0x46
  }

  lemma {:induction false} EncodeAllIsPercentEncoded(s: seq<Byte>)
    ensures PercentEncoded(EncodeAll(s))
  {
    if s != [] {
      EncodeAllIsPercentEncoded(s[1..]);
      var e := EncodeAll(s);
      assert e[|EncodeByte(s[0])|..] == EncodeAll(s[1..]);
    }
  }

  // ---- Decoding ------------------------------------------------------------------------------------

  predicate IsEscape(s: seq<Byte>) {
    |s| >= 3 && s[0] == PERCENT && HexVal(s[1]) >= 0 && HexVal(s[2]) >= 0
  }

  /** The byte that decoding starts with, and how much input it takes. */
  function FirstDecoded(s: seq<Byte>): (r: (Byte, nat))
    requires s != []
    ensures 1 <= r.1 <= |s|
  {
    if IsEscape(s) then (HexVal(s[1]) * 16 + HexVal(s[2]), 3)
    else (if s[0] == PLUS then SPACE else s[0], 1)
  }

  /** What `url_decode` writes when the buffer has room for `room` bytes before the NUL. */
  function Decoded(s: seq<Byte>, room: nat): (d: seq<Byte>)
    ensures |d| <= room
    decreases |s|
  {
    if s == [] || room == 0 then []
    else [FirstDecoded(s).0] + Decoded(s[FirstDecoded(s).1..], room - 1)
  }

  method DecodeAt(src: seq<Byte>, i: nat) returns (byte: Byte, step: nat)
    requires i < |src|
    ensures (byte, step) == FirstDecoded(src[i..])
  {
    if src[i] == PERCENT && i + 2 < |src| {
      var hi, lo := HexVal(src[i + 1]), HexVal(src[i + 2]);
      if hi >= 0 && lo >= 0 {
        return hi * 16 + lo, 3;
      }
    }
    return if src[i] == PLUS then SPACE else src[i], 1;
  }

  lemma DecodedStep(src: seq<Byte>, i: nat, room: nat, done: seq<Byte>)
    requires i < |src| && room > 0
    ensures var (byte, step) := FirstDecoded(src[i..]);
            done + Decoded(src[i..], room) == (done + [byte]) + Decoded(src[i + step..], room - 1)
  {
    var (byte, step) := FirstDecoded(src[i..]);
    assert src[i..][step..] == src[i + step..];
    assert done + ([byte] + Decoded(src[i + step..], room - 1)) == (done + [byte]) + Decoded(src[i + step..], room - 1);
  }

  /** One turn of the decoding loop. */
  method PutDecoded(src: seq<Byte>, i: nat, dst: array<Byte>, w: nat, ghost room: nat) returns (i': nat)
    requires i < |src| && w < dst.Length && room > 0
    modifies dst
    ensures i < i' <= |src|
    ensures old(dst[..w]) + Decoded(src[i..], room) == dst[..w + 1] + Decoded(src[i'..], room - 1)
  {
    var byte, step := DecodeAt(src, i);
    DecodedStep(src, i, room, dst[..w]);
    dst[w] := byte;
    assert dst[..w + 1] == old(dst[..w]) + [byte];
    i' := i + step;
  }

  lemma DecodedAtEnd(src: seq<Byte>, i: nat, room: nat)
    requires i <= |src| && (i == |src| || room == 0)
    ensures Decoded(src[i..], room) == []
  {
  }

  method UrlDecode(src: seq<Byte>, dst: array<Byte>, n: nat) returns (w: nat)
    requires IsCString(src) && 1 <= n <= dst.Length
    modifies dst
    ensures w == |Decoded(src, n - 1)| < n && dst[..w] == Decoded(src, n - 1) && dst[w] == 0
  {
    w := 0;
    var i := 0;
    ghost var all := Decoded(src, n - 1);
    assert src[0..] == src;
    while i < |src| && w + 1 < n
      invariant 0 <= i <= |src| && 0 <= w < n
      invariant dst[..w] + Decoded(src[i..], n - 1 - w) == all
    {
      i := PutDecoded(src, i, dst, w, n - 1 - w);
      w := w + 1;
    }
    DecodedAtEnd(src, i, n - 1 - w);
    assert dst[..w] == all;
    dst[w] := 0;
  }

  lemma HexRoundTrip(c: Byte)
    ensures HexVal(UpperHex(c / 16)) == c / 16 && HexVal(UpperHex(c % 16)) == c % 16
    ensures !Unreserved(PERCENT) && !Unreserved(PLUS)
  {
  }

  // ---- Round trips ------------------------------------------------------------------------------------

  lemma FirstOfEncoded(c: Byte, rest: seq<Byte>)
    ensures FirstDecoded(EncodeByte(c) + rest) == (c, |EncodeByte(c)|)
    ensures (EncodeByte(c) + rest)[|EncodeByte(c)|..] == rest
  {
    HexRoundTrip(c);
  }

  lemma DecodedCons(c: Byte, rest: seq<Byte>, room: nat)
    requires room > 0
    ensures Decoded(EncodeByte(c) + rest, room) == [c] + Decoded(rest, room - 1)
  {
    FirstOfEncoded(c, rest);
  }

  lemma DecodeOneMore(s: seq<Byte>, room: nat)
    requires s != [] && room > 0
    ensures Decoded(EncodeAll(s), room) == [s[0]] + Decoded(EncodeAll(s[1..]), room - 1)
  {
    DecodedCons(s[0], EncodeAll(s[1..]), room);
  }

  lemma TakeCons(s: seq<Byte>, room: nat)
    requires s != [] && room > 0
    ensures s[..Min(|s|, room)] == [s[0]] + s[1..][..Min(|s| - 1, room - 1)]
  {
  }

  lemma DecodeStep(s: seq<Byte>, room: nat)
    requires s != [] && room > 0
    requires Decoded(EncodeAll(s[1..]), room - 1) == s[1..][..Min(|s| - 1, room - 1)]
    ensures Decoded(EncodeAll(s), room) == s[..Min(|s|, room)]
  {
    DecodeOneMore(s, room);
    TakeCons(s, room);
  }

  /** Decoding an encoded string gives it back, or the prefix that the buffer can hold. */
  lemma {:induction false} DecodeEncoded(s: seq<Byte>, room: nat)
    ensures Decoded(EncodeAll(s), room) == s[..Min(|s|, room)]
  {
    if s != [] && room > 0 {
      DecodeEncoded(s[1..], room - 1);
      DecodeStep(s, room);
    }
  }

  lemma AllEncodedExactly(s: seq<Byte>, n: nat)
    ensures EncodedCount(s, 0, n) == |s| <==> s == [] || |EncodeAll(s[..|s| - 1])| + 4 < n
  {
    EncodedCountIsMaximal(s, 0, n, |s|);
    if s != [] && |EncodeAll(s[..|s| - 1])| + 4 < n {
      forall i | 0 <= i < |s| ensures |EncodeAll(s[..i])| + 4 < n {
        PrefixIsShorter(s, i, |s| - 1);
      }
    }
  }

  lemma RoundTripKeeps(s: seq<Byte>, n: nat, room: nat)
    requires room >= |s|
    ensures Decoded(Encoded(s, n), room) == s[..EncodedCount(s, 0, n)]
  {
    DecodeEncoded(s[..EncodedCount(s, 0, n)], room);
  }

  /**
   Through an encode buffer of size `n` and any decode buffer large enough for the text, a
   string survives exactly when the encoder may still start its last byte.
   */
  lemma RoundTripExactly(s: seq<Byte>, n: nat, room: nat)
    requires room >= |s|
    ensures Decoded(Encoded(s, n), room) == s <==> s == [] || |EncodeAll(s[..|s| - 1])| + 4 < n
  {
    RoundTripKeeps(s, n, room);
    AllEncodedExactly(s, n);
  }

  lemma {:induction false} PrefixIsShorter(s: seq<Byte>, i: nat, j: nat)
    requires i <= j <= |s|
    ensures |EncodeAll(s[..i])| <= |EncodeAll(s[..j])|
    decreases j - i
  {
    if i < j {
      assert s[..i + 1] == s[..i] + [s[i]];
      EncodeAppend(s[..i], s[i]);
      PrefixIsShorter(s, i + 1, j);
    }
  }

  /**
   Every SSID of up to 32 bytes survives the network page's link and the connect handler, with
   100 bytes for either form.
   */
  lemma SsidSurvives(ssid: seq<Byte>)
    requires |ssid| <= 32
    ensures |Encoded(ssid, 100)| < 100
    ensures Decoded(Encoded(ssid, 100), 99) == ssid
  {
    RoundTripExactly(ssid, 100, 99);
    if ssid != [] {
      assert |EncodeAll(ssid[..|ssid| - 1])| <= 3 * (|ssid| - 1);
    }
  }

  /** The buffers leave no slack: 33 bytes that all need escapes do not survive. */
  lemma ThirtyThreeDoNot(s: seq<Byte>)
    requires |s| == 33 && forall k :: 0 <= k < |s| ==> !Unreserved(s[k])
    ensures Decoded(Encoded(s, 100), 99) != s
  {
    RoundTripExactly(s, 100, 99);
    AllEscaped(s[..32]);
  }

  lemma {:induction false} AllEscaped(s: seq<Byte>)
    requires forall k :: 0 <= k < |s| ==> !Unreserved(s[k])
    ensures |EncodeAll(s)| == 3 * |s|
  {
    if s != [] {
      AllEscaped(s[1..]);
    }
  }

  // ---- What browsers send ---------------------------------------------------------------------------

  /** A piece of a submitted form: a plus, an escape with digits of either case, or a byte as it is. */
  datatype Piece = Plus | Escape(byte: Byte, upperHigh: bool, upperLow: bool) | Plain(byte: Byte)

  predicate ValidPiece(p: Piece) {
    p.Plain? ==> p.byte != 0x25 && p.byte != 0x2B
  }

  function HexDigit(v: int, upper: bool): Byte
    requires 0 <= v < 16
  {
    (if upper then "0123456789ABCDEF"[v] else "0123456789abcdef"[v]) as int % 256
  }

  function PieceText(p: Piece): (t: seq<Byte>)
    ensures |t| >= 1
  {
    match p
    case Plus => [0x2B]
    case Escape(b, high, low) => [0x25, HexDigit(b / 16, high), HexDigit(b % 16, low)]
    case Plain(b) => [b]
  }

  function PieceMeaning(p: Piece): Byte {
    if p.Plus? then 0x20 else p.byte
  }

  function FormText(ps: seq<Piece>): seq<Byte> {
    if ps == [] then [] else PieceText(ps[0]) + FormText(ps[1..])
  }

  function FormMeaning(ps: seq<Piece>): (m: seq<Byte>)
    ensures |m| == |ps| && forall k :: 0 <= k < |m| ==> m[k] == PieceMeaning(ps[k])
  {
    seq(|ps|, k requires 0 <= k < |ps| => PieceMeaning(ps[k]))
  }

  lemma HexDigitIsRead(v: int, upper: bool)
    requires 0 <= v < 16
    ensures HexVal(HexDigit(v, upper)) == v
  {
  }

  lemma FirstOfPiece(p: Piece, rest: seq<Byte>)
    requires ValidPiece(p)
    ensures FirstDecoded(PieceText(p) + rest) == (PieceMeaning(p), |PieceText(p)|)
    ensures (PieceText(p) + rest)[|PieceText(p)|..] == rest
  {
    if p.Escape? {
      HexDigitIsRead(p.byte / 16, p.upperHigh);
      HexDigitIsRead(p.byte % 16, p.upperLow);
    }
  }

  lemma PieceIsDecoded(p: Piece, rest: seq<Byte>, room: nat)
    requires ValidPiece(p) && room > 0
    ensures Decoded(PieceText(p) + rest, room) == [PieceMeaning(p)] + Decoded(rest, room - 1)
  {
    FirstOfPiece(p, rest);
  }

  lemma MeaningTake(ps: seq<Piece>, room: nat)
    requires ps != [] && room > 0
    ensures FormMeaning(ps)[..Min(|ps|, room)]
            == [PieceMeaning(ps[0])] + FormMeaning(ps[1..])[..Min(|ps| - 1, room - 1)]
  {
    assert FormMeaning(ps) == [PieceMeaning(ps[0])] + FormMeaning(ps[1..]);
  }

  predicate ReadsRight(ps: seq<Piece>, room: nat) {
    Decoded(FormText(ps), room) == FormMeaning(ps)[..Min(|ps|, room)]
  }

  lemma ReadsRightAtEnd(ps: seq<Piece>, room: nat)
    requires ps == [] || room == 0
    ensures ReadsRight(ps, room)
  {
  }

  lemma ReadsRightBehind(ps: seq<Piece>, room: nat)
    requires ps != [] && room > 0 && ValidPiece(ps[0]) && ReadsRight(ps[1..], room - 1)
    ensures ReadsRight(ps, room)
  {
    PieceIsDecoded(ps[0], FormText(ps[1..]), room);
    MeaningTake(ps, room);
  }

  predicate ValidForm(ps: seq<Piece>) {
    forall k :: 0 <= k < |ps| ==> ValidPiece(ps[k])
  }

  /** Every submitted form reads as what it means: a plus as a space, %xx in either case as its byte. */
  lemma {:induction false} FormsAreDecoded(ps: seq<Piece>, room: nat)
    requires ValidForm(ps)
    ensures ReadsRight(ps, room)
  {
    if ps == [] || room == 0 {
      ReadsRightAtEnd(ps, room);
    } else {
      FormsAreDecoded(ps[1..], room - 1);
      ReadsRightBehind(ps, room);
    }
  }

  predicate IsHexDigit(c: Byte) {
    exists v, upper :: 0 <= v < 16 && c == HexDigit(v, upper)
  }

  lemma HexDigitsExactly(c: Byte)
    ensures IsHexDigit(c) <==> HexVal(c) >= 0
  {
    if HexVal(c) >= 0 {
      assert c == HexDigit(HexVal(c), true) || c == HexDigit(HexVal(c), false);
    }
    if IsHexDigit(c) {
      var v, upper :| 0 <= v < 16 && c == HexDigit(v, upper);
      HexDigitIsRead(v, upper);
    }
  }

  /** A percent sign that two hex digits do not follow stands for itself. */
  lemma StrayPercentIsKept(s: seq<Byte>, room: nat)
    requires s != [] && s[0] == 0x25 && room > 0
    requires |s| < 3 || !IsHexDigit(s[1]) || !IsHexDigit(s[2])
    ensures Decoded(s, room) == [0x25] + Decoded(s[1..], room - 1)
  {
    if |s| >= 3 {
      HexDigitsExactly(s[1]);
      HexDigitsExactly(s[2]);
    }
  }

  /** Letters, digits, and four marks. */
  predicate IsUnreservedChar(c: char) {
    'A' <= c <= 'Z' || 'a' <= c <= 'z' || '0' <= c <= '9' || c == '-' || c == '.' || c == '_' || c == '~'
  }

  lemma UpperHexIsDigit(v: int)
    requires 0 <= v < 16
    ensures UpperHex(v) == HexDigit(v, true)
  {
  }

  /** A byte is encoded as itself exactly if section 2.3 of RFC 3986 leaves it unreserved. */
  lemma EncodedByteExactly(c: Byte)
    ensures EncodeByte(c) == if IsUnreservedChar(c as char) then [c] else PieceText(Escape(c, true, true))
  {
    UpperHexIsDigit(c / 16);
    UpperHexIsDigit(c % 16);
  }
}
