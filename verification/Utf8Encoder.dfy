/** The strict UTF-8 encoder (CFBuiltinConverters.c, lines 913-986 and 1108-1122). Bit operations are written as the
    arithmetic they amount to. */
module Utf8Encoder {
  import opened Bytes
  import opened Utf

  /** __CFUTF8BytesToWriteForCharacter */
  function BytesToWrite(ch: u32): (n: nat)
    ensures n <= 6
  {
    if ch < 0x80 then 1
    else if ch < 0x800 then 2
    else if ch < 0x1_0000 then 3
    else if ch < 0x20_0000 then 4
    else if ch < 0x400_0000 then 5
    else if ch <= 0x7FFF_FFFF then 6
    else 0
  }

  function FirstByteMark(n: nat): (m: byte) {
    match n
    case 2 => 0xC0
    case 3 => 0xE0
    case 4 => 0xF0
    case 5 => 0xF8
    case 6 => 0xFC
    case _ => 0
  }

  /** The bytes of a 32-bit character number: up to six of them, which is RFC 3629 section 3 where that goes. What does
      not fit 31 bits becomes the replacement character, but in the two bytes that is too long for. */
  function CoreBytes(ch: u32): (s: seq<byte>)
    ensures |s| == if BytesToWrite(ch) == 0 then 2 else BytesToWrite(ch)
  {
    var a: nat, d: nat := ch / 0x40, ch / 0x40 / 0x40;
    var e: nat, f: nat, g: nat := d / 0x40, d / 0x40 / 0x40, d / 0x40 / 0x40 / 0x40;
    match BytesToWrite(ch)
    case 1 => [ch]
    case 2 => [a + 0xC0, TailOf(ch)]
    case 3 => [d + 0xE0, TailOf(a), TailOf(ch)]
    case 4 => [e + 0xF0, TailOf(d), TailOf(a), TailOf(ch)]
    case 5 => [f + 0xF8, TailOf(e), TailOf(d), TailOf(a), TailOf(ch)]
    case 6 => [g + 0xFC, TailOf(f), TailOf(e), TailOf(d), TailOf(a), TailOf(ch)]
    case _ => [0xFF, 0xBD]
  }

  /** For every character UTF-16 can name they are the octets of the standard. */
  lemma CoreBytesAreOctets(c: Scalar)
    ensures CoreBytes(c) == Octets(c) && BytesToWrite(c) == |Octets(c)|
  {
  }

  /** The number from the bytes of the forms longer than four. */
  function FromFive(a: int, b: int, c: int, d: int, e: int): int {
    0x100_0000 * (a - 0xF8) + 262144 * (b - 0x80) + 4096 * (c - 0x80) + 64 * (d - 0x80) + (e - 0x80)
  }

  function FromSix(a: int, b: int, c: int, d: int, e: int, f: int): int {
    0x4000_0000 * (a - 0xFC) + 0x100_0000 * (b - 0x80) + 262144 * (c - 0x80) + 4096 * (d - 0x80)
    + 64 * (e - 0x80) + (f - 0x80)
  }

  lemma LongFormsSay(ch: u32)
    requires ch >= 0x20_0000
    ensures var s := CoreBytes(ch);
            && |s| == (if ch < 0x400_0000 then 5 else if ch < 0x8000_0000 then 6 else 2)
            && (|s| > 2 ==> forall i :: 1 <= i < |s| ==> 0x80 <= s[i] <= 0xBF)
            && (|s| == 5 ==> 0xF8 <= s[0] < 0xFC && ch == FromFive(s[0], s[1], s[2], s[3], s[4]))
            && (|s| == 6 ==> 0xFC <= s[0] < 0xFE && ch == FromSix(s[0], s[1], s[2], s[3], s[4], s[5]))
            && (|s| == 2 ==> s == [0xFF, 0xBD])
  {
  }

  /** The first byte: the mark's bits are clear in what is left of the character, but for the replacement character in
      two bytes, of which ten ones are left. */
  function FirstByte(c: nat, n: nat): byte {
    if c + FirstByteMark(n) < 0x100 then c + FirstByteMark(n) else 0xFF
  }

  /** The cells after the stores of the core, last byte first: what is left of the character goes to the first byte. */
  function Stores(ch: nat, n: nat, b: seq<byte>, at: nat): (s: seq<byte>)
    requires 1 <= n <= 6 && at + n <= |b|
  {
    var b6 := if 6 <= n then b[at + 5 := TailOf(ch)] else b;
    var c6 := if 6 <= n then ch / 0x40 else ch;
    var b5 := if 5 <= n then b6[at + 4 := TailOf(c6)] else b6;
    var c5 := if 5 <= n then c6 / 0x40 else c6;
    var b4 := if 4 <= n then b5[at + 3 := TailOf(c5)] else b5;
    var c4 := if 4 <= n then c5 / 0x40 else c5;
    var b3 := if 3 <= n then b4[at + 2 := TailOf(c4)] else b4;
    var c3 := if 3 <= n then c4 / 0x40 else c4;
    var b2 := if 2 <= n then b3[at + 1 := TailOf(c3)] else b3;
    var c2 := if 2 <= n then c3 / 0x40 else c3;
    b2[at := FirstByte(c2, n)]
  }

  /** The fall-through stores leave exactly the bytes of the character. */
  lemma StoresAreBytes(ch: u32, b: seq<byte>, at: nat)
    requires at + |CoreBytes(ch)| <= |b|
    ensures var n, c := |CoreBytes(ch)|, if BytesToWrite(ch) == 0 then REPLACEMENT else ch;
            Stores(c, n, b, at) == b[..at] + CoreBytes(ch) + b[at + n..]
  {
    hide TailOf, Stores, CoreBytes;
    if |CoreBytes(ch)| <= 3 {
      StoresUpToThree(ch, b, at);
    } else {
      StoresFromFour(ch, b, at);
    }
  }

  lemma StoresUpToThree(ch: u32, b: seq<byte>, at: nat)
    requires |CoreBytes(ch)| <= 3 && at + |CoreBytes(ch)| <= |b|
    ensures var n, c := |CoreBytes(ch)|, if BytesToWrite(ch) == 0 then REPLACEMENT else ch;
            Stores(c, n, b, at) == b[..at] + CoreBytes(ch) + b[at + n..]
  {
    hide TailOf;
  }

  lemma StoresFromFour(ch: u32, b: seq<byte>, at: nat)
    requires |CoreBytes(ch)| >= 4 && at + |CoreBytes(ch)| <= |b|
    ensures var n := |CoreBytes(ch)|; Stores(ch, n, b, at) == b[..at] + CoreBytes(ch) + b[at + n..]
  {
    hide TailOf;
  }

  method PutByte(bytes: array<byte>, i: nat, b: byte)
    requires i < bytes.Length
    modifies bytes
    ensures bytes[..] == old(bytes[..i]) + [b] + old(bytes[i + 1..])
  {
    bytes[i] := b;
  }

  method PutTail(bytes: array<byte>, i: nat, c: nat) returns (rest: nat)
    requires i < bytes.Length
    modifies bytes
    ensures bytes[..] == old(bytes[..])[i := TailOf(c)] && rest == c / 0x40
  {
    bytes[i] := TailOf(c);
    rest := c / 0x40;
  }

  /** __CFToUTF8Core: all bytes of a character, or none when they do not fit. */
  method ToUTF8Core(character: u32, bytes: array<byte>, at: nat, maxByteLen: nat) returns (written: nat)
    requires at + maxByteLen <= bytes.Length
    modifies bytes
    ensures written == if |CoreBytes(character)| <= maxByteLen then |CoreBytes(character)| else 0
    ensures bytes[..] == if written == 0 then old(bytes[..])
                         else old(bytes[..at]) + CoreBytes(character) + old(bytes[at + |CoreBytes(character)|..])
  {
    hide TailOf, CoreBytes, BytesToWrite, FirstByte;
    written := BytesToWrite(character);
    var ch: nat := character;
    if written == 0 {
      written := 2;
      ch := REPLACEMENT;
    }
    if maxByteLen < written {
      return 0;
    }
    ghost var b, c := bytes[..], ch;
    StoresAreBytes(character, b, at);
    if 6 <= written {
      ch := PutTail(bytes, at + 5, ch);
    }
    if 5 <= written {
      ch := PutTail(bytes, at + 4, ch);
    }
    if 4 <= written {
      ch := PutTail(bytes, at + 3, ch);
    }
    if 3 <= written {
      ch := PutTail(bytes, at + 2, ch);
    }
    if 2 <= written {
      ch := PutTail(bytes, at + 1, ch);
    }
    bytes[at] := FirstByte(ch, written);
    assert bytes[..] == Stores(c, written, b, at);
  }

  /** The encoder has written the first k characters and no more. */
  ghost predicate Wrote(before: seq<byte>, after: seq<byte>, maxByteLen: nat, used: nat, cs: seq<Scalar>, k: nat) {
    && k <= |cs| && used == |AllOctets(cs[..k])| && |before| == |after|
    && (if maxByteLen == 0 then after == before
        else used <= |before| && after == AllOctets(cs[..k]) + before[used..])
  }

  lemma WroteNothing(b: seq<byte>, maxByteLen: nat, cs: seq<Scalar>)
    ensures Wrote(b, b, maxByteLen, 0, cs, 0)
  {
  }

  lemma WroteNext(before: seq<byte>, after: seq<byte>, maxByteLen: nat, used: nat, cs: seq<Scalar>, k: nat)
    requires Wrote(before, after, maxByteLen, used, cs, k) && k < |cs|
    requires maxByteLen > 0 ==> used + |Octets(cs[k])| <= |before|
    ensures var n := used + |Octets(cs[k])|;
            Wrote(before, if maxByteLen == 0 then after else after[..used] + Octets(cs[k]) + after[n..],
                  maxByteLen, n, cs, k + 1)
  {
    hide Octets;
    AllOctetsNext(cs, k);
    if maxByteLen > 0 {
      var n := used + |Octets(cs[k])|;
      assert after[n..] == before[n..];
      assert after[..used] == AllOctets(cs[..k]);
    }
  }

  /** The character at a place, put together from a surrogate pair where there is one. In strict mode a surrogate on
      its own is none. */
  method NextCharacter(characters: seq<u16>, i: nat) returns (next: Option<Scalar>)
    requires i < |characters|
    ensures next == Next16(characters[i..])
    ensures var ch := characters[i];
            if ch < 0xD800 || ch > 0xDFFF then next == Some(ch)
            else if ch < 0xDC00 && i + 1 < |characters| && 0xDC00 <= characters[i + 1] < 0xE000 then
              next == Some(Joined(ch, characters[i + 1]))
            else next == None
  {
    var ch: int := characters[i];
    if 0xD800 <= ch {
      if ch <= 0xDBFF {
        if i + 1 < |characters| && 0xDC00 <= characters[i + 1] <= 0xDFFF {
          var low: int := characters[i + 1];
          return Some((ch - 0xD800) * 0x400 + (low - 0xDC00) + 0x1_0000);
        } else {
          return None;
        }
      } else if ch <= 0xDFFF {
        return None;
      }
    }
    return Some(ch);
  }

  lemma UnitsAndOctets(c: Scalar)
    ensures |Units(c)| == if c < 0x1_0000 then 1 else 2
    ensures c < 0x80 ==> Octets(c) == [c]
  {
  }

  /** One character of __CFToUTF8: ASCII in place, others through the core. Nothing is stored when it only counts. */
  method WriteCharacter(ch: Scalar, bytes: array<byte>, used: nat, maxByteLen: nat) returns (written: nat)
    requires maxByteLen <= bytes.Length && (maxByteLen == 0 || used < maxByteLen)
    modifies bytes
    ensures written == if maxByteLen == 0 || used + |Octets(ch)| <= maxByteLen then |Octets(ch)| else 0
    ensures bytes[..] == if maxByteLen == 0 || written == 0 then old(bytes[..])
                         else old(bytes[..used]) + Octets(ch) + old(bytes[used + |Octets(ch)|..])
  {
    hide Octets, CoreBytes, BytesToWrite;
    CoreBytesAreOctets(ch);
    UnitsAndOctets(ch);
    if ch < 0x80 {
      if maxByteLen != 0 {
        PutByte(bytes, used, ch);
      }
      return 1;
    }
    written := BytesToWrite(ch);
    if maxByteLen != 0 {
      written := ToUTF8Core(ch, bytes, used, maxByteLen - used);
    }
  }

  /** One character more, or none when it does not fit. */
  method WriteNext(ch: Scalar, bytes: array<byte>, used: nat, maxByteLen: nat,
                   ghost b: seq<byte>, ghost cs: seq<Scalar>, ghost k: nat) returns (written: nat)
    requires maxByteLen <= bytes.Length && (maxByteLen == 0 || used < maxByteLen)
    requires Wrote(b, bytes[..], maxByteLen, used, cs, k) && k < |cs| && cs[k] == ch
    modifies bytes
    ensures written == if maxByteLen == 0 || used + |Octets(ch)| <= maxByteLen then |Octets(ch)| else 0
    ensures Wrote(b, bytes[..], maxByteLen, used + written, cs, if written == 0 then k else k + 1)
  {
    hide Octets, Wrote;
    ghost var was := bytes[..];
    SameLength(b, was, maxByteLen, used, cs, k);
    written := WriteCharacter(ch, bytes, used, maxByteLen);
    if written != 0 {
      WroteNext(b, was, maxByteLen, used, cs, k);
    }
  }

  lemma SameLength(before: seq<byte>, after: seq<byte>, maxByteLen: nat, used: nat, cs: seq<Scalar>, k: nat)
    requires Wrote(before, after, maxByteLen, used, cs, k)
    ensures |before| == |after|
  {
  }

  /** __CFToUTF8 in strict mode: the longest run of whole characters that is well-formed and fits. A maxByteLen of 0
      only counts. */
  method ToUTF8(characters: seq<u16>, bytes: array<byte>, maxByteLen: nat)
    returns (consumed: nat, usedByteLen: nat, ghost k: nat)
    requires maxByteLen <= bytes.Length
    modifies bytes
    ensures k <= |Scalars16(characters)| && consumed == |AllUnits(Scalars16(characters)[..k])|
    ensures Wrote(old(bytes[..]), bytes[..], maxByteLen, usedByteLen, Scalars16(characters), k)
    ensures maxByteLen > 0 ==> usedByteLen <= maxByteLen
    ensures k < |Scalars16(characters)| ==>
              maxByteLen > 0 && maxByteLen < usedByteLen + |Octets(Scalars16(characters)[k])|
    ensures maxByteLen == 0 || |Encoded(characters)| <= maxByteLen ==>
              && consumed == |AllUnits(Scalars16(characters))| && usedByteLen == |Encoded(characters)|
              && (maxByteLen > 0 ==> bytes[..usedByteLen] == Encoded(characters))
  {
    hide Octets, CoreBytes, Units, Scalars16, At16, Wrote, BytesToWrite, AllUnits, AllOctets, Next16, Joined,
         Encoded;
    ghost var cs, b := Scalars16(characters), bytes[..];
    consumed, usedByteLen, k := 0, 0, 0;
    At16Start(characters);
    WroteNothing(b, maxByteLen, cs);
    while consumed < |characters| && (maxByteLen == 0 || usedByteLen < maxByteLen)
      invariant At16(characters, consumed, k) && consumed <= |characters|
      invariant Wrote(b, bytes[..], maxByteLen, usedByteLen, cs, k)
      invariant maxByteLen > 0 ==> usedByteLen <= maxByteLen
    {
      At16Next(characters, consumed, k);
      var next := NextCharacter(characters, consumed);
      match next
      case None =>
        break;
      case Some(ch) =>
        UnitsAndOctets(ch);
        var written := WriteNext(ch, bytes, usedByteLen, maxByteLen, b, cs, k);
        if written == 0 {
          break;
        }
        usedByteLen := usedByteLen + written;
        consumed := consumed + (if ch < 0x1_0000 then 1 else 2);
        k := k + 1;
    }
    At16Next(characters, consumed, k);
    StoppedAt(characters, b, bytes[..], maxByteLen, consumed, usedByteLen, k);
  }

  /** Where the encoder stops: no character is left, or the next one does not fit. */
  lemma StoppedAt(s: seq<u16>, before: seq<byte>, after: seq<byte>, maxByteLen: nat, consumed: nat, used: nat, k: nat)
    requires At16(s, consumed, k) && Wrote(before, after, maxByteLen, used, Scalars16(s), k)
    requires k < |Scalars16(s)| ==> maxByteLen > 0 && maxByteLen < used + |Octets(Scalars16(s)[k])|
    ensures k <= |Scalars16(s)| && consumed == |AllUnits(Scalars16(s)[..k])|
    ensures maxByteLen == 0 || |Encoded(s)| <= maxByteLen ==>
              && consumed == |AllUnits(Scalars16(s))| && used == |Encoded(s)|
              && (maxByteLen > 0 ==> used <= |after| && after[..used] == Encoded(s))
  {
    hide Octets, Units, Scalars16, At16, Wrote, AllUnits, AllOctets;
    var cs := Scalars16(s);
    At16Means(s, consumed, k);
    WroteMeans(before, after, maxByteLen, used, cs, k);
    EnoughRoom(cs, maxByteLen, used, k);
    assert cs[..|cs|] == cs;
  }

  lemma WroteMeans(before: seq<byte>, after: seq<byte>, maxByteLen: nat, used: nat, cs: seq<Scalar>, k: nat)
    requires Wrote(before, after, maxByteLen, used, cs, k)
    ensures used == |AllOctets(cs[..k])|
    ensures maxByteLen > 0 ==> used <= |after| && after[..used] == AllOctets(cs[..k])
  {
  }

  /** With enough room every character is written. */
  lemma EnoughRoom(cs: seq<Scalar>, maxByteLen: nat, used: nat, k: nat)
    requires k <= |cs| && used == |AllOctets(cs[..k])|
    requires k < |cs| ==> maxByteLen > 0 && maxByteLen < used + |Octets(cs[k])|
    ensures maxByteLen == 0 || |AllOctets(cs)| <= maxByteLen ==> k == |cs|
  {
    assert cs[..|cs|] == cs;
    if k < |cs| {
      AllOctetsNext(cs, k);
      AllOctetsGrow(cs, k + 1, |cs|);
    }
  }

  /** The length of the encoding, with three bytes for a surrogate on its own. */
  function CountedLen(s: seq<u16>): nat
    decreases |s|
  {
    if s == [] then 0
    else match Next16(s)
         case Some(c) => |Octets(c)| + CountedLen(s[|Units(c)|..])
         case None => 3 + CountedLen(s[1..])
  }

  lemma CountedNext(s: seq<u16>, i: nat)
    requires i <= |s|
    ensures i == |s| ==> CountedLen(s[i..]) == 0
    ensures i < |s| ==>
              var h: int := s[i];
              if High(h) && i + 1 < |s| && Low(s[i + 1]) then
                var low: int := s[i + 1];
                CountedLen(s[i..]) == BytesToWrite((h - 0xD800) * 0x400 + (low - 0xDC00) + 0x1_0000)
                                      + CountedLen(s[i + 2..])
              else CountedLen(s[i..]) == BytesToWrite(h) + CountedLen(s[i + 1..])
  {
  }

  /** __CFToUTF8Len: surrogates on their own are counted too, at three bytes. */
  method ToUTF8Len(characters: seq<u16>) returns (bytesToWrite: nat)
    ensures bytesToWrite == CountedLen(characters)
  {
    hide CountedLen, BytesToWrite;
    bytesToWrite := 0;
    var i := 0;
    assert characters[0..] == characters;
    CountedNext(characters, |characters|);
    while i < |characters|
      invariant i <= |characters|
      invariant bytesToWrite + CountedLen(characters[i..]) == CountedLen(characters)
    {
      CountedNext(characters, i);
      var ch: int := characters[i];
      i := i + 1;
      if 0xD800 <= ch <= 0xDBFF && i < |characters| && 0xDC00 <= characters[i] <= 0xDFFF {
        var low: int := characters[i];
        ch := (ch - 0xD800) * 0x400 + (low - 0xDC00) + 0x1_0000;
        i := i + 1;
      }
      bytesToWrite := bytesToWrite + BytesToWrite(ch);
    }
  }

  /** The counted length is the number of bytes the encoder writes exactly for well-formed UTF-16. */
  lemma {:induction false} CountedLenIff(s: seq<u16>)
    ensures |Encoded(s)| <= CountedLen(s)
    ensures |Encoded(s)| == CountedLen(s) <==> WellFormed16(s)
    decreases |s|
  {
    hide Octets;
    WellFormed16Iff(s);
    Scalars16IsPrefix(s);
    match Next16(s)
    case Some(c) =>
      var n := |Units(c)|;
      CountedLenIff(s[n..]);
      WellFormed16Iff(s[n..]);
      assert Scalars16(s)[1..] == Scalars16(s[n..]);
      assert s == Units(c) + s[n..];
      assert AllUnits(Scalars16(s)) == s <==> AllUnits(Scalars16(s[n..])) == s[n..];
    case None =>
  }

  /** A high surrogate on its own counts three bytes and is not written. */
  lemma LoneSurrogateIsCounted()
    ensures CountedLen([0xD800]) == 3 && Encoded([0xD800]) == []
  {
    assert [0xD800][1..] == [];
  }
}
