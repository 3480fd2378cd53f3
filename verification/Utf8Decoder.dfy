/** The strict UTF-8 decoder (CFBuiltinConverters.c, lines 1000-1106 and 1124-1192), without decomposition or lossy
    fallbacks. Bit operations are written as the arithmetic they amount to. */
module Utf8Decoder {
  import opened Bytes
  import opened Utf

  /** trailingBytesForUTF8 */
  function TrailingBytes(h: byte): (n: nat)
    ensures n <= 5
  {
    if h < 0xC0 then 0
    else if h < 0xE0 then 1
    else if h < 0xF0 then 2
    else if h < 0xF8 then 3
    else if h < 0xFC then 4
    else 5
  }

  /** offsetsFromUTF8, for the sequences the decoder goes on with. */
  function Offset(extra: nat): nat {
    match extra
    case 0 => 0
    case 1 => 0x3080
    case 2 => 0xE_2080
    case _ => 0x3C8_2080
  }

  /** __CFIsLegalUTF8, for the length its first byte calls for: whether the bytes are a character of the grammar. */
  method IsLegalUTF8(source: seq<byte>, at: nat, length: nat) returns (legal: bool)
    requires at + length <= |source| && 0 < length && length == TrailingBytes(source[at]) + 1
    ensures legal == Utf8Char(source[at..at + length])
  {
    if length > 4 {
      return false;
    }
    var head := source[at];
    var src := length - 1;
    while src > 0
      invariant 0 <= src < length
      invariant forall p :: at + src < p < at + length ==> Tail(source[p])
      decreases src
    {
      if !Tail(source[at + src]) {
        NoTailNoCharacter(source[at..at + length], src);
        return false;
      }
      src := src - 1;
    }
    assert length > 1 ==> Tail(source[at + 1]);
    assert length > 2 ==> Tail(source[at + 2]);
    assert length > 3 ==> Tail(source[at + 3]);
    if (head >= 0x80 && head < 0xC2) || head > 0xF4 {
      return false;
    }
    if (head == 0xE0 && source[at + 1] < 0xA0) || (head == 0xED && source[at + 1] > 0x9F)
       || (head == 0xF0 && source[at + 1] < 0x90) || (head == 0xF4 && source[at + 1] > 0x8F) {
      return false;
    }
    return true;
  }

  lemma NoTailNoCharacter(s: seq<byte>, i: nat)
    requires 0 < i < |s| <= 4 && !Tail(s[i])
    ensures !Utf8Char(s)
  {
  }

  /** Shifting the bytes together and subtracting the offset gives the character number. */
  method Assemble(source: seq<byte>, at: nat, extra: nat) returns (ch: int)
    requires extra <= 3 && at + extra < |source| && Utf8Char(source[at..at + extra + 1])
    ensures ch == ScalarOf(source[at..at + extra + 1])
  {
    var src := at;
    ch := 0;
    if extra >= 3 {
      ch := (ch + source[src]) * 0x40;
      src := src + 1;
    }
    if extra >= 2 {
      ch := (ch + source[src]) * 0x40;
      src := src + 1;
    }
    if extra >= 1 {
      ch := (ch + source[src]) * 0x40;
      src := src + 1;
    }
    ch := ch + source[src];
    ch := ch - Offset(extra);
  }

  /** The checks each turn of the decoder starts with: whether the bytes at a place go on with a character, with the
      byte 0xA9 that is let through, or with nothing it accepts. */
  method NextPiece(source: seq<byte>, at: nat) returns (next: Option<Piece>)
    requires at < |source|
    ensures next == Next8(source[at..])
  {
    hide ScalarOf;
    var extraBytesToRead := TrailingBytes(source[at]);
    var numBytes := |source| - at - 1;
    if extraBytesToRead > numBytes {
      return None;
    }
    assert source[at..][..extraBytesToRead + 1] == source[at..at + extraBytesToRead + 1];
    var legal := false;
    if extraBytesToRead <= 3 {
      legal := IsLegalUTF8(source, at, extraBytesToRead + 1);
    }
    if !legal {
      if source[at] == 0xA9 {
        return Some(Copyright);
      }
      return None;
    }
    var ch := Assemble(source, at, extraBytesToRead);
    return Some(Character(ch));
  }

  /** The decoder has written the units of the first k pieces and no more. */
  ghost predicate Wrote(before: seq<u16>, after: seq<u16>, maxCharLen: nat, used: nat, cs: seq<Scalar>, k: nat) {
    && k <= |cs| && used == |AllUnits(cs[..k])| && |before| == |after|
    && (if maxCharLen == 0 then after == before
        else used <= |before| && after == AllUnits(cs[..k]) + before[used..])
  }

  lemma WroteNothing(b: seq<u16>, maxCharLen: nat, cs: seq<Scalar>)
    ensures Wrote(b, b, maxCharLen, 0, cs, 0)
  {
  }

  lemma WroteNext(before: seq<u16>, after: seq<u16>, maxCharLen: nat, used: nat, cs: seq<Scalar>, k: nat)
    requires Wrote(before, after, maxCharLen, used, cs, k) && k < |cs|
    requires maxCharLen > 0 ==> used + |Units(cs[k])| <= |before|
    ensures var n := used + |Units(cs[k])|;
            Wrote(before, if maxCharLen == 0 then after else after[..used] + Units(cs[k]) + after[n..],
                  maxCharLen, n, cs, k + 1)
  {
    hide Units;
    AllUnitsNext(cs, k);
    if maxCharLen > 0 {
      var n := used + |Units(cs[k])|;
      assert after[n..] == before[n..];
      assert after[..used] == AllUnits(cs[..k]);
    }
  }

  /** Writes one unit, or a pair. */
  method Put(characters: array<u16>, at: nat, c: Scalar)
    requires at + |Units(c)| <= characters.Length
    modifies characters
    ensures characters[..] == old(characters[..at]) + Units(c) + old(characters[at + |Units(c)|..])
    ensures if c <= 0xFFFF then characters[at] == c
            else 0xD800 <= characters[at] < 0xDC00 <= characters[at + 1] < 0xE000
                 && c == Joined(characters[at], characters[at + 1])
  {
    if c <= 0xFFFF {
      characters[at] := c;
    } else {
      var ch: int := c - 0x1_0000;
      var high: int, low: int := ch / 0x400, ch % 0x400;
      characters[at] := high + 0xD800;
      characters[at + 1] := low + 0xDC00;
    }
  }

  /** A pair starts where one place is left of the room. */
  ghost predicate PairAtEdge(bytes: seq<byte>, maxCharLen: nat) {
    maxCharLen > 0 && exists j: nat :: j < |Pieces8(bytes)| && PairAt(bytes, maxCharLen, j)
  }

  ghost predicate PairAt(bytes: seq<byte>, maxCharLen: nat, j: nat)
    requires j < |Pieces8(bytes)|
  {
    && |AllUnits(PiecesScalars(Pieces8(bytes))[..j])| + 1 == maxCharLen
    && |Units(PieceScalar(Pieces8(bytes)[j]))| == 2
  }

  /** __CFFromUTF8 in strict mode. A maxCharLen of 0 only counts. A pair for which only one place is left is lost: its
      bytes are consumed, but it is not written. */
  method FromUTF8(bytes: seq<byte>, characters: array<u16>, maxCharLen: nat)
    returns (consumed: nat, usedCharLen: nat, ghost k: nat, ghost lost: bool)
    requires maxCharLen <= characters.Length
    modifies characters
    ensures k + (if lost then 1 else 0) <= |Pieces8(bytes)|
    ensures consumed == |PiecesOctets(Pieces8(bytes)[..k + if lost then 1 else 0])|
    ensures Wrote(old(characters[..]), characters[..], maxCharLen, usedCharLen, PiecesScalars(Pieces8(bytes)), k)
    ensures maxCharLen > 0 ==> usedCharLen <= maxCharLen
    ensures lost ==> PairAt(bytes, maxCharLen, k)
    ensures lost <==> PairAtEdge(bytes, maxCharLen)
    ensures !lost && k < |Pieces8(bytes)| ==> maxCharLen > 0 && maxCharLen == usedCharLen
    ensures maxCharLen == 0 || |Decoded(bytes)| <= maxCharLen ==>
              && consumed == Accepted8(bytes) && usedCharLen == |Decoded(bytes)|
              && (maxCharLen > 0 ==> characters[..usedCharLen] == Decoded(bytes))
  {
    hide Units, Pieces8, At8, Wrote, AllUnits, PiecesOctets, PiecesScalars, Next8, PieceOctets, Decoded, Accepted8,
         Joined;
    ghost var ps, b := Pieces8(bytes), characters[..];
    ghost var cs := PiecesScalars(ps);
    consumed, usedCharLen, k, lost := 0, 0, 0, false;
    At8Start(bytes);
    WroteNothing(b, maxCharLen, cs);
    while consumed < |bytes| && (maxCharLen == 0 || usedCharLen < maxCharLen)
      invariant !lost && At8(bytes, consumed, k) && consumed <= |bytes|
      invariant Wrote(b, characters[..], maxCharLen, usedCharLen, cs, k)
      invariant maxCharLen > 0 ==> usedCharLen <= maxCharLen
    {
      At8Next(bytes, consumed, k);
      var next := NextPiece(bytes, consumed);
      if next == None {
        break;
      }
      var ch := PieceScalar(next.value);
      PieceLengths(bytes, consumed, next.value);
      consumed := consumed + (if next.value.Copyright? then 1 else TrailingBytes(bytes[consumed]) + 1);
      if ch > 0xFFFF && maxCharLen != 0 && usedCharLen + 2 > maxCharLen {
        lost := true;
        break;
      }
      WroteNext(b, characters[..], maxCharLen, usedCharLen, cs, k);
      if maxCharLen != 0 {
        Put(characters, usedCharLen, ch);
      }
      usedCharLen := usedCharLen + (if ch <= 0xFFFF then 1 else 2);
      k := k + 1;
    }
    At8Means(bytes, consumed, if lost then k + 1 else k);
    WroteMeans(b, characters[..], maxCharLen, usedCharLen, cs, k);
    LostAtEdge(bytes, maxCharLen, usedCharLen, k, lost);
    if maxCharLen == 0 || |Decoded(bytes)| <= maxCharLen {
      EnoughWritten(bytes, b, characters[..], maxCharLen, consumed, usedCharLen, k, lost);
    }
  }

  lemma WroteMeans(before: seq<u16>, after: seq<u16>, maxCharLen: nat, used: nat, cs: seq<Scalar>, k: nat)
    requires Wrote(before, after, maxCharLen, used, cs, k)
    ensures used == |AllUnits(cs[..k])|
    ensures maxCharLen > 0 ==> used <= |after| && after[..used] == AllUnits(cs[..k])
  {
  }

  /** The decoder stops in the middle of a pair exactly when a pair starts where one place is left. */
  lemma LostAtEdge(bytes: seq<byte>, maxCharLen: nat, used: nat, k: nat, lost: bool)
    requires k + (if lost then 1 else 0) <= |Pieces8(bytes)|
    requires used == |AllUnits(PiecesScalars(Pieces8(bytes))[..k])|
    requires lost ==> maxCharLen == used + 1 && |Units(PieceScalar(Pieces8(bytes)[k]))| == 2
    requires maxCharLen > 0 ==> used <= maxCharLen
    requires !lost && k < |Pieces8(bytes)| ==> maxCharLen > 0 && maxCharLen == used
    ensures lost <==> PairAtEdge(bytes, maxCharLen)
    ensures lost ==> PairAt(bytes, maxCharLen, k)
  {
    hide Units, Pieces8, AllUnits, PiecesScalars;
    var cs := PiecesScalars(Pieces8(bytes));
    if lost {
      assert PairAt(bytes, maxCharLen, k);
    } else if maxCharLen > 0 {
      forall j: nat | j < |cs|
        ensures !PairAt(bytes, maxCharLen, j)
      {
        AllUnitsNext(cs, j);
        if j < k {
          AllUnitsGrow(cs, j + 1, k);
        } else {
          AllUnitsGrow(cs, k, j);
        }
      }
    }
  }

  /** F0 90 80 80 is one character outside the basic plane: with room for one unit it is consumed and lost. */
  lemma PairIsLost()
    ensures Utf8Char([0xF0, 0x90, 0x80, 0x80])
    ensures PairAtEdge([0xF0, 0x90, 0x80, 0x80], 1) && Accepted8([0xF0, 0x90, 0x80, 0x80]) == 4
  {
    var b: seq<byte> := [0xF0, 0x90, 0x80, 0x80];
    var p := Character(0x10000);
    assert PieceOctets(p) == b;
    assert PiecesOctets([p]) == PieceOctets(p) + PiecesOctets([p][1..]) == b;
    Pieces8OfOctets([p]);
    assert PiecesScalars([p]) == [0x10000];
    assert PairAt(b, 1, 0);
  }

  lemma PieceLengths(bytes: seq<byte>, at: nat, p: Piece)
    requires at < |bytes| && Next8(bytes[at..]) == Some(p)
    ensures |PieceOctets(p)| == if p.Copyright? then 1 else TrailingBytes(bytes[at]) + 1
    ensures |Units(PieceScalar(p))| == if PieceScalar(p) <= 0xFFFF then 1 else 2
  {
  }

  /** With enough room the decoder consumes and writes all there is to decode; it never loses anything when it only
      counts. */
  lemma EnoughRoom(bytes: seq<byte>, maxCharLen: nat, consumed: nat, used: nat, k: nat, lost: bool)
    requires k + (if lost then 1 else 0) <= |Pieces8(bytes)|
    requires consumed == |PiecesOctets(Pieces8(bytes)[..k + if lost then 1 else 0])|
    requires used == |AllUnits(PiecesScalars(Pieces8(bytes))[..k])|
    requires lost ==> maxCharLen == used + 1 && |Units(PieceScalar(Pieces8(bytes)[k]))| == 2
    requires !lost && k < |Pieces8(bytes)| ==> maxCharLen > 0 && maxCharLen == used
    requires maxCharLen == 0 || |Decoded(bytes)| <= maxCharLen
    ensures !lost && k == |Pieces8(bytes)| && consumed == Accepted8(bytes) && used == |Decoded(bytes)|
  {
    hide Units, AllUnits, Pieces8, PiecesOctets, PiecesScalars;
    var ps := Pieces8(bytes);
    var cs := PiecesScalars(ps);
    assert ps[..|ps|] == ps && cs[..|cs|] == cs;
    if k < |ps| {
      assert cs[k] == PieceScalar(ps[k]);
      AllUnitsNext(cs, k);
      AllUnitsGrow(cs, k + 1, |cs|);
    }
  }

  lemma EnoughWritten(bytes: seq<byte>, before: seq<u16>, after: seq<u16>, maxCharLen: nat,
                      consumed: nat, used: nat, k: nat, lost: bool)
    requires k + (if lost then 1 else 0) <= |Pieces8(bytes)|
    requires consumed == |PiecesOctets(Pieces8(bytes)[..k + if lost then 1 else 0])|
    requires Wrote(before, after, maxCharLen, used, PiecesScalars(Pieces8(bytes)), k)
    requires lost ==> maxCharLen == used + 1 && |Units(PieceScalar(Pieces8(bytes)[k]))| == 2
    requires !lost && k < |Pieces8(bytes)| ==> maxCharLen > 0 && maxCharLen == used
    requires maxCharLen == 0 || |Decoded(bytes)| <= maxCharLen
    ensures consumed == Accepted8(bytes) && used == |Decoded(bytes)|
    ensures maxCharLen > 0 ==> used <= |after| && after[..used] == Decoded(bytes)
  {
    var cs := PiecesScalars(Pieces8(bytes));
    WroteMeans(before, after, maxCharLen, used, cs, k);
    EnoughRoom(bytes, maxCharLen, consumed, used, k, lost);
    assert cs[..|cs|] == cs;
  }

  /** __CFFromUTF8Len in strict mode: the units the decoder writes with enough room, on every input. */
  method FromUTF8Len(source: seq<byte>) returns (usedCharLen: nat)
    ensures usedCharLen == |Decoded(source)|
  {
    hide Units, Pieces8, At8, AllUnits, PiecesOctets, PiecesScalars, Next8, PieceOctets;
    ghost var ps := Pieces8(source);
    ghost var cs, k := PiecesScalars(ps), 0;
    usedCharLen := 0;
    var at := 0;
    At8Start(source);
    NoUnits();
    while at < |source|
      invariant at <= |source| && At8(source, at, k) && k <= |cs| && usedCharLen == |AllUnits(cs[..k])|
    {
      At8Next(source, at, k);
      var next := NextPiece(source, at);
      if next == None {
        break;
      }
      PieceLengths(source, at, next.value);
      AllUnitsNext(cs, k);
      at := at + (if next.value.Copyright? then 1 else TrailingBytes(source[at]) + 1);
      usedCharLen := usedCharLen + (if PieceScalar(next.value) <= 0xFFFF then 1 else 2);
      k := k + 1;
    }
    At8Means(source, at, k);
    assert cs[..|cs|] == cs;
  }

  lemma NoUnits()
    ensures AllUnits([]) == []
  {
  }
}
