/** UTF-8 (RFC 3629) and UTF-16 (RFC 2781) as those standards define them. */
module Utf {
  import opened Bytes

  type Scalar = c: int | 0 <= c < 0xD800 || 0xE000 <= c <= 0x10FFFF

  // ---- UTF-16, RFC 2781 section 2.1 ----

  predicate High(u: u16) { 0xD800 <= u <= 0xDBFF }

  predicate Low(u: u16) { 0xDC00 <= u <= 0xDFFF }

  function Units(c: Scalar): (s: seq<u16>)
    ensures 1 <= |s| <= 2
  {
    if c < 0x10000 then [c]
    else
      var high: int := (c - 0x10000) / 0x400;
      var low: int := (c - 0x10000) % 0x400;
      [0xD800 + high, 0xDC00 + low]
  }

  function AllUnits(cs: seq<Scalar>): seq<u16> {
    if cs == [] then [] else Units(cs[0]) + AllUnits(cs[1..])
  }

  /** RFC 2781 section 2.2: the character a sequence starts with, if any. */
  function Next16(s: seq<u16>): (c: Option<Scalar>)
    ensures c.Some? ==> |Units(c.value)| <= |s| && s[..|Units(c.value)|] == Units(c.value)
  {
    if s == [] then None
    else if !High(s[0]) && !Low(s[0]) then Some(s[0])
    else if High(s[0]) && |s| > 1 && Low(s[1]) then
      var high: int, low: int := s[0] - 0xD800, s[1] - 0xDC00;
      Some(high * 0x400 + low + 0x10000)
    else None
  }

  /** The character of a high and a low surrogate. */
  function Joined(high: int, low: int): int {
    0x1_0000 + 1024 * (high - 0xD800) + (low - 0xDC00)
  }

  /** A character of the basic plane is one unit; another is a high surrogate and a low one, ten bits of the number
      above 10000 each. */
  lemma UnitsSay(c: Scalar)
    ensures var s := Units(c);
            if c <= 0xFFFF then s == [c]
            else |s| == 2 && 0xD800 <= s[0] < 0xDC00 <= s[1] < 0xE000 && c == Joined(s[0], s[1])
  {
  }

  /** A sequence starts with a unit that is no surrogate, or a high and a low one, or no character. */
  lemma Next16Says(s: seq<u16>)
    ensures Next16(s)
         == if |s| >= 1 && (s[0] < 0xD800 || s[0] > 0xDFFF) then Some(s[0])
            else if |s| >= 2 && 0xD800 <= s[0] < 0xDC00 <= s[1] < 0xE000 then
              Some(Joined(s[0], s[1]))
            else None
  {
  }

  /** The characters of the longest well-formed prefix. */
  function Scalars16(s: seq<u16>): (cs: seq<Scalar>)
    decreases |s|
  {
    match Next16(s)
    case None => []
    case Some(c) => [c] + Scalars16(s[|Units(c)|..])
  }

  ghost predicate WellFormed16(s: seq<u16>) {
    exists cs :: s == AllUnits(cs)
  }

  lemma Next16OfUnits(c: Scalar, rest: seq<u16>)
    ensures Next16(Units(c) + rest) == Some(c)
  {
  }

  lemma {:induction false} Scalars16OfUnits(cs: seq<Scalar>)
    ensures Scalars16(AllUnits(cs)) == cs
  {
    if cs != [] {
      var rest := AllUnits(cs[1..]);
      Next16OfUnits(cs[0], rest);
      assert (Units(cs[0]) + rest)[|Units(cs[0])|..] == rest;
      Scalars16OfUnits(cs[1..]);
    }
  }

  lemma {:induction false} Scalars16IsPrefix(s: seq<u16>)
    ensures |AllUnits(Scalars16(s))| <= |s|
    ensures s[..|AllUnits(Scalars16(s))|] == AllUnits(Scalars16(s))
    ensures Next16(s[|AllUnits(Scalars16(s))|..]) == None
    decreases |s|
  {
    hide Next16, Units;
    match Next16(s)
    case None =>
      assert s[0..] == s;
    case Some(c) =>
      var n := |Units(c)|;
      Scalars16IsPrefix(s[n..]);
      var more := AllUnits(Scalars16(s[n..]));
      assert Scalars16(s)[1..] == Scalars16(s[n..]);
      assert s == s[..n] + s[n..];
      assert s[n..][|more|..] == s[n + |more|..];
  }

  lemma WellFormed16Iff(s: seq<u16>)
    ensures WellFormed16(s) <==> AllUnits(Scalars16(s)) == s
  {
    if cs :| s == AllUnits(cs) {
      Scalars16OfUnits(cs);
    }
  }

  // ---- UTF-8, RFC 3629 ----

  predicate Tail(b: byte) { 0x80 <= b <= 0xBF }

  /** The tail octet for the low six bits. */
  function TailOf(n: int): (b: byte)
    ensures Tail(b) && b == 0x80 + n % 0x40
  {
    var low: int := n % 0x40;
    0x80 + low
  }

  /** RFC 3629 section 3: the octets of a character number. */
  function Octets(c: Scalar): (s: seq<byte>)
    ensures 1 <= |s| <= 4
  {
    if c < 0x80 then [c]
    else
      var a: int, b: int, d: int := c / 0x40, c / 0x40 / 0x40, c / 0x40 / 0x40 / 0x40;
      if c < 0x800 then [0xC0 + a, TailOf(c)]
      else if c < 0x10000 then [0xE0 + b, TailOf(a), TailOf(c)]
      else [0xF0 + d, TailOf(b), TailOf(a), TailOf(c)]
  }

  /** The number of a character from its octets, six bits from each after the first. */
  function FromTwo(a: int, b: int): int {
    64 * (a - 0xC0) + (b - 0x80)
  }

  function FromThree(a: int, b: int, c: int): int {
    4096 * (a - 0xE0) + 64 * (b - 0x80) + (c - 0x80)
  }

  function FromFour(a: int, b: int, c: int, d: int): int {
    262144 * (a - 0xF0) + 4096 * (b - 0x80) + 64 * (c - 0x80) + (d - 0x80)
  }

  lemma OctetsSay(c: Scalar)
    ensures var s := Octets(c);
            && |s| == (if c <= 0x7F then 1 else if c <= 0x7FF then 2 else if c <= 0xFFFF then 3 else 4)
            && (forall i :: 1 <= i < |s| ==> 0x80 <= s[i] <= 0xBF)
            && (|s| == 1 ==> c == s[0])
            && (|s| == 2 ==> 0xC0 <= s[0] < 0xE0 && c == FromTwo(s[0], s[1]))
            && (|s| == 3 ==> 0xE0 <= s[0] < 0xF0 && c == FromThree(s[0], s[1], s[2]))
            && (|s| == 4 ==> 0xF0 <= s[0] < 0xF8 && c == FromFour(s[0], s[1], s[2], s[3]))
  {
  }

  function AllOctets(cs: seq<Scalar>): seq<byte> {
    if cs == [] then [] else Octets(cs[0]) + AllOctets(cs[1..])
  }

  /** RFC 3629 section 4: the grammar of one character. */
  predicate Utf8Char(s: seq<byte>) {
    || (|s| == 1 && s[0] <= 0x7F)
    || (|s| == 2 && 0xC2 <= s[0] <= 0xDF && Tail(s[1]))
    || (|s| == 3 && Tail(s[2])
        && ((s[0] == 0xE0 && 0xA0 <= s[1] <= 0xBF) || (0xE1 <= s[0] <= 0xEC && Tail(s[1]))
            || (s[0] == 0xED && 0x80 <= s[1] <= 0x9F) || (0xEE <= s[0] <= 0xEF && Tail(s[1]))))
    || (|s| == 4 && Tail(s[2]) && Tail(s[3])
        && ((s[0] == 0xF0 && 0x90 <= s[1] <= 0xBF) || (0xF1 <= s[0] <= 0xF3 && Tail(s[1]))
            || (s[0] == 0xF4 && 0x80 <= s[1] <= 0x8F)))
  }

  /** The character number of octets in the grammar. */
  function ScalarOf(s: seq<byte>): (c: Scalar)
    requires Utf8Char(s)
  {
    var h: int := s[0];
    if |s| == 1 then h
    else
      var x: int := s[1] - 0x80;
      if |s| == 2 then (h - 0xC0) * 0x40 + x
      else
        var y: int := s[2] - 0x80;
        if |s| == 3 then ((h - 0xE0) * 0x40 + x) * 0x40 + y
        else
          var z: int := s[3] - 0x80;
          (((h - 0xF0) * 0x40 + x) * 0x40 + y) * 0x40 + z
  }

  lemma Shifted(q: int, r: int)
    requires 0 <= r < 0x40
    ensures (q * 0x40 + r) / 0x40 == q && (q * 0x40 + r) % 0x40 == r
  {
  }

  /** The grammar of section 4 generates octets of section 3 only, */
  lemma GrammarGivesOctets(s: seq<byte>)
    requires Utf8Char(s)
    ensures Octets(ScalarOf(s)) == s
  {
    hide TailOf;
    var h: int := s[0];
    if |s| > 1 {
      var x: int := s[1] - 0x80;
      var top := if |s| == 2 then h - 0xC0 else if |s| == 3 then h - 0xE0 else h - 0xF0;
      var q := top * 0x40 + x;
      Shifted(top, x);
      if |s| > 2 {
        var y: int := s[2] - 0x80;
        Shifted(q, y);
        if |s| > 3 {
          Shifted(q * 0x40 + y, s[3] - 0x80);
        }
      }
    }
  }

  /** and all of them. */
  lemma OctetsInGrammar(c: Scalar)
    ensures Utf8Char(Octets(c)) && ScalarOf(Octets(c)) == c
  {
  }

  // ---- Lists of characters ----

  lemma {:induction false} AllUnitsNext(cs: seq<Scalar>, k: nat)
    requires k < |cs|
    ensures AllUnits(cs[..k + 1]) == AllUnits(cs[..k]) + Units(cs[k])
  {
    hide Units;
    if k > 0 {
      AllUnitsNext(cs[1..], k - 1);
      assert cs[..k + 1][1..] == cs[1..][..k] && cs[..k][1..] == cs[1..][..k - 1];
      assert Units(cs[0]) + (AllUnits(cs[1..][..k - 1]) + Units(cs[k])) == AllUnits(cs[..k]) + Units(cs[k]);
    } else {
      assert cs[..1][1..] == [];
      assert Units(cs[0]) + [] == [] + Units(cs[0]);
    }
  }

  lemma {:induction false} AllOctetsNext(cs: seq<Scalar>, k: nat)
    requires k < |cs|
    ensures AllOctets(cs[..k + 1]) == AllOctets(cs[..k]) + Octets(cs[k])
  {
    hide Octets;
    if k > 0 {
      AllOctetsNext(cs[1..], k - 1);
      assert cs[..k + 1][1..] == cs[1..][..k] && cs[..k][1..] == cs[1..][..k - 1];
      assert Octets(cs[0]) + (AllOctets(cs[1..][..k - 1]) + Octets(cs[k])) == AllOctets(cs[..k]) + Octets(cs[k]);
    } else {
      assert cs[..1][1..] == [];
      assert Octets(cs[0]) + [] == [] + Octets(cs[0]);
    }
  }

  /** A longer list of characters has more octets. */
  lemma {:induction false} AllOctetsGrow(cs: seq<Scalar>, i: nat, j: nat)
    requires i <= j <= |cs|
    ensures |AllOctets(cs[..i])| + (j - i) <= |AllOctets(cs[..j])|
    decreases j
  {
    if i < j {
      AllOctetsGrow(cs, i, j - 1);
      AllOctetsNext(cs, j - 1);
    }
  }

  /** A longer list of characters has more units. */
  lemma {:induction false} AllUnitsGrow(cs: seq<Scalar>, i: nat, j: nat)
    requires i <= j <= |cs|
    ensures |AllUnits(cs[..i])| + (j - i) <= |AllUnits(cs[..j])|
    decreases j
  {
    if i < j {
      AllUnitsGrow(cs, i, j - 1);
      AllUnitsNext(cs, j - 1);
    }
  }

  /** Walking over a sequence k characters in, after n units: what has been read is the first k characters, and what
      is left has the others. */
  ghost predicate At16(s: seq<u16>, n: nat, k: nat) {
    && n <= |s| && k <= |Scalars16(s)| && s[..n] == AllUnits(Scalars16(s)[..k])
    && Scalars16(s[n..]) == Scalars16(s)[k..]
  }

  lemma At16Start(s: seq<u16>)
    ensures At16(s, 0, 0)
  {
  }

  lemma At16Next(s: seq<u16>, n: nat, k: nat)
    requires At16(s, n, k)
    ensures Next16(s[n..]) == if k < |Scalars16(s)| then Some(Scalars16(s)[k]) else None
    ensures k < |Scalars16(s)| ==> At16(s, n + |Units(Scalars16(s)[k])|, k + 1)
  {
    hide Next16, Units;
    var cs := Scalars16(s);
    if k < |cs| {
      assert Scalars16(s[n..])[0] == cs[k];
      var u := |Units(cs[k])|;
      AllUnitsNext(cs, k);
      assert s[n..][u..] == s[n + u..];
      assert s[..n + u] == s[..n] + s[n..][..u];
      assert Scalars16(s[n..])[1..] == cs[k + 1..];
    }
  }

  lemma At16Means(s: seq<u16>, n: nat, k: nat)
    requires At16(s, n, k)
    ensures k <= |Scalars16(s)| && n == |AllUnits(Scalars16(s)[..k])|
  {
  }

  // ---- What the strict decoder accepts ----

  /** A character, or the lone byte 0xA9 that the decoder lets through as the replacement character. */
  datatype Piece = Character(c: Scalar) | Copyright

  const REPLACEMENT: Scalar := 0xFFFD

  function PieceOctets(p: Piece): (s: seq<byte>)
    ensures 1 <= |s| <= 4
  {
    if p.Character? then Octets(p.c) else [0xA9]
  }

  function PieceScalar(p: Piece): Scalar {
    if p.Character? then p.c else REPLACEMENT
  }

  function PiecesOctets(ps: seq<Piece>): seq<byte> {
    if ps == [] then [] else PieceOctets(ps[0]) + PiecesOctets(ps[1..])
  }

  function PiecesScalars(ps: seq<Piece>): (cs: seq<Scalar>)
    ensures |cs| == |ps|
    ensures forall i :: 0 <= i < |ps| ==> cs[i] == PieceScalar(ps[i])
  {
    if ps == [] then [] else [PieceScalar(ps[0])] + PiecesScalars(ps[1..])
  }

  /** How many octets follow the first one of a character. */
  function Following(h: byte): (n: nat)
    ensures n <= 3
  {
    if h < 0xC0 then 0 else if h < 0xE0 then 1 else if h < 0xF0 then 2 else 3
  }

  /** The piece a byte sequence starts with, if any. */
  function Next8(b: seq<byte>): (p: Option<Piece>)
  {
    if b == [] then None
    else if b[0] == 0xA9 then Some(Copyright)
    else
      var n := Following(b[0]) + 1;
      if n <= |b| && Utf8Char(b[..n]) then Some(Character(ScalarOf(b[..n]))) else None
  }

  lemma Next8Octets(b: seq<byte>)
    ensures Next8(b).Some? ==>
              |PieceOctets(Next8(b).value)| <= |b| && b[..|PieceOctets(Next8(b).value)|] == PieceOctets(Next8(b).value)
  {
    hide Octets, ScalarOf;
    if Next8(b).Some? && b[0] != 0xA9 {
      GrammarGivesOctets(b[..Following(b[0]) + 1]);
    }
  }

  /** The pieces of the longest prefix made of such. */
  function Pieces8(b: seq<byte>): (ps: seq<Piece>)
    decreases |b|
  {
    match Next8(b)
    case None => []
    case Some(p) =>
      Next8Octets(b);
      [p] + Pieces8(b[|PieceOctets(p)|..])
  }

  lemma Next8OfOctets(p: Piece, rest: seq<byte>)
    ensures Next8(PieceOctets(p) + rest) == Some(p)
  {
    if p.Character? {
      OctetsInGrammar(p.c);
      FirstOctetTells(p.c);
      assert (Octets(p.c) + rest)[..|Octets(p.c)|] == Octets(p.c);
    }
  }

  lemma FirstOctetTells(c: Scalar)
    ensures Octets(c)[0] != 0xA9 && Following(Octets(c)[0]) + 1 == |Octets(c)|
  {
  }

  /** No two lists of pieces have the same bytes. */
  lemma {:induction false} Pieces8OfOctets(ps: seq<Piece>)
    ensures Pieces8(PiecesOctets(ps)) == ps
  {
    hide Next8, PieceOctets;
    if ps == [] {
      assert Next8(PiecesOctets(ps)) == None by { Next8OfNothing(); }
    } else {
      var rest := PiecesOctets(ps[1..]);
      Next8OfOctets(ps[0], rest);
      assert (PieceOctets(ps[0]) + rest)[|PieceOctets(ps[0])|..] == rest;
      Pieces8OfOctets(ps[1..]);
    }
  }

  lemma Next8OfNothing()
    ensures Next8([]) == None
  {
  }

  lemma {:induction false} Pieces8IsPrefix(b: seq<byte>)
    ensures |PiecesOctets(Pieces8(b))| <= |b|
    ensures b[..|PiecesOctets(Pieces8(b))|] == PiecesOctets(Pieces8(b))
    ensures Next8(b[|PiecesOctets(Pieces8(b))|..]) == None
    decreases |b|
  {
    hide Next8, PieceOctets;
    match Next8(b)
    case None =>
      assert b[0..] == b;
    case Some(p) =>
      Next8Octets(b);
      var n := |PieceOctets(p)|;
      Pieces8IsPrefix(b[n..]);
      var more := PiecesOctets(Pieces8(b[n..]));
      assert Pieces8(b)[1..] == Pieces8(b[n..]);
      assert b == b[..n] + b[n..];
      assert b[n..][|more|..] == b[n + |more|..];
  }

  lemma {:induction false} PiecesOctetsNext(ps: seq<Piece>, k: nat)
    requires k < |ps|
    ensures PiecesOctets(ps[..k + 1]) == PiecesOctets(ps[..k]) + PieceOctets(ps[k])
  {
    hide PieceOctets;
    if k > 0 {
      PiecesOctetsNext(ps[1..], k - 1);
      assert ps[..k + 1][1..] == ps[1..][..k] && ps[..k][1..] == ps[1..][..k - 1];
      assert PieceOctets(ps[0]) + (PiecesOctets(ps[1..][..k - 1]) + PieceOctets(ps[k]))
          == PiecesOctets(ps[..k]) + PieceOctets(ps[k]);
    } else {
      assert ps[..1][1..] == [];
      assert PieceOctets(ps[0]) + [] == [] + PieceOctets(ps[0]);
    }
  }

  /** Walking over bytes k pieces in, after n bytes: what is left has the other pieces. */
  ghost predicate At8(b: seq<byte>, n: nat, k: nat) {
    && n <= |b| && k <= |Pieces8(b)| && n == |PiecesOctets(Pieces8(b)[..k])|
    && Pieces8(b[n..]) == Pieces8(b)[k..]
  }

  lemma At8Start(b: seq<byte>)
    ensures At8(b, 0, 0)
  {
  }

  lemma At8Next(b: seq<byte>, n: nat, k: nat)
    requires At8(b, n, k)
    ensures n <= |b| && k <= |Pieces8(b)|
    ensures Next8(b[n..]) == if k < |Pieces8(b)| then Some(Pieces8(b)[k]) else None
    ensures k < |Pieces8(b)| ==>
              n + |PieceOctets(Pieces8(b)[k])| <= |b| && At8(b, n + |PieceOctets(Pieces8(b)[k])|, k + 1)
  {
    hide Next8, PieceOctets;
    var ps := Pieces8(b);
    if k < |ps| {
      assert Pieces8(b[n..])[0] == ps[k];
      Next8Octets(b[n..]);
      var u := |PieceOctets(ps[k])|;
      PiecesOctetsNext(ps, k);
      assert b[n..][u..] == b[n + u..];
      assert Pieces8(b[n..])[1..] == ps[k + 1..];
    }
  }

  lemma At8Means(b: seq<byte>, n: nat, k: nat)
    requires At8(b, n, k)
    ensures k <= |Pieces8(b)| && n == |PiecesOctets(Pieces8(b)[..k])|
    ensures n == |b| ==> k == |Pieces8(b)|
    ensures k == |Pieces8(b)| ==> n == Accepted8(b)
  {
    if n == |b| {
      At8Next(b, n, k);
    }
    assert Pieces8(b)[..|Pieces8(b)|] == Pieces8(b);
  }

  /** RFC 3629 section 4: octets that are a concatenation of characters of the grammar. */
  ghost predicate WellFormed8(b: seq<byte>) {
    exists cs :: b == AllOctets(cs)
  }

  function Plain(cs: seq<Scalar>): (ps: seq<Piece>)
    ensures |ps| == |cs|
    ensures forall i :: 0 <= i < |cs| ==> ps[i] == Character(cs[i])
  {
    if cs == [] then [] else [Character(cs[0])] + Plain(cs[1..])
  }

  lemma {:induction false} PlainOctets(cs: seq<Scalar>)
    ensures PiecesOctets(Plain(cs)) == AllOctets(cs) && PiecesScalars(Plain(cs)) == cs
  {
    if cs != [] {
      PlainOctets(cs[1..]);
    }
  }

  /** The pieces of well-formed octets are their characters. */
  lemma WellFormed8Pieces(cs: seq<Scalar>)
    ensures Pieces8(AllOctets(cs)) == Plain(cs)
  {
    PlainOctets(cs);
    Pieces8OfOctets(Plain(cs));
  }

  // ---- Round trips ----

  /** What the encoder writes with enough room. */
  function Encoded(s: seq<u16>): seq<byte> {
    AllOctets(Scalars16(s))
  }

  /** What the decoder writes with enough room. */
  function Decoded(b: seq<byte>): seq<u16> {
    AllUnits(PiecesScalars(Pieces8(b)))
  }

  /** How many bytes the decoder reads with enough room. */
  function Accepted8(b: seq<byte>): nat {
    |PiecesOctets(Pieces8(b))|
  }

  /** Decoding inverts encoding on well-formed UTF-16, and all input is consumed both ways. */
  lemma DecodeEncode(s: seq<u16>)
    requires WellFormed16(s)
    ensures Decoded(Encoded(s)) == s
    ensures |AllUnits(Scalars16(s))| == |s| && Accepted8(Encoded(s)) == |Encoded(s)|
  {
    WellFormed16Iff(s);
    WellFormed8Pieces(Scalars16(s));
    PlainOctets(Scalars16(s));
  }

  /** Encoding inverts decoding on well-formed UTF-8, and all input is consumed both ways. */
  lemma EncodeDecode(b: seq<byte>)
    requires WellFormed8(b)
    ensures Encoded(Decoded(b)) == b
    ensures Accepted8(b) == |b| && |AllUnits(Scalars16(Decoded(b)))| == |Decoded(b)|
  {
    var cs :| b == AllOctets(cs);
    WellFormed8Pieces(cs);
    PlainOctets(cs);
    Scalars16OfUnits(cs);
  }

  /** The decoder consumes its whole input exactly when that is a concatenation of characters and lone 0xA9 bytes. */
  lemma AcceptsIff(b: seq<byte>)
    ensures Accepted8(b) == |b| <==> exists ps :: b == PiecesOctets(ps)
  {
    Pieces8IsPrefix(b);
    if ps :| b == PiecesOctets(ps) {
      Pieces8OfOctets(ps);
    }
    assert Accepted8(b) == |b| ==> b == PiecesOctets(Pieces8(b));
  }

  /** Each lone 0xA9 comes back as the three octets of the replacement character, so input the decoder accepts comes
      back unchanged exactly when it has none. */
  lemma {:induction false} LoneBytesGrow(ps: seq<Piece>)
    ensures |AllOctets(PiecesScalars(ps))| >= |PiecesOctets(ps)|
    ensures |AllOctets(PiecesScalars(ps))| == |PiecesOctets(ps)| ==> forall i :: 0 <= i < |ps| ==> ps[i].Character?
    ensures (forall i :: 0 <= i < |ps| ==> ps[i].Character?) ==> AllOctets(PiecesScalars(ps)) == PiecesOctets(ps)
  {
    hide Octets;
    if ps != [] {
      LoneBytesGrow(ps[1..]);
      ReplacementIsLonger();
      assert PiecesScalars(ps)[1..] == PiecesScalars(ps[1..]);
      forall i | 0 <= i < |ps[1..]|
        ensures ps[1..][i] == ps[i + 1]
      {
      }
      if |AllOctets(PiecesScalars(ps))| == |PiecesOctets(ps)| {
        forall i | 0 <= i < |ps|
          ensures ps[i].Character?
        {
          if i > 0 {
            assert ps[1..][i - 1].Character?;
          }
        }
      }
    }
  }

  lemma ReplacementIsLonger()
    ensures |Octets(REPLACEMENT)| == 3
  {
  }

  /** Encoding what was decoded gives the input back exactly when it is well-formed: all of it accepted, and no piece a
      lone 0xA9. */
  lemma EncodeDecodeIff(b: seq<byte>)
    ensures Encoded(Decoded(b)) == b <==> WellFormed8(b)
    ensures WellFormed8(b) <==> Accepted8(b) == |b| && forall i :: 0 <= i < |Pieces8(b)| ==> Pieces8(b)[i].Character?
  {
    var ps := Pieces8(b);
    Pieces8IsPrefix(b);
    Scalars16OfUnits(PiecesScalars(ps));
    LoneBytesGrow(ps);
    if WellFormed8(b) {
      EncodeDecode(b);
    }
  }

  /** A lone 0xA9 comes back as the octets of U+FFFD. */
  lemma LoneByteComesBackLonger()
    ensures Accepted8([0xA9]) == 1 && Encoded(Decoded([0xA9])) == [0xEF, 0xBF, 0xBD]
  {
    assert PiecesOctets([Copyright]) == [0xA9] + PiecesOctets([Copyright][1..]) == [0xA9];
    Pieces8OfOctets([Copyright]);
    assert PiecesScalars([Copyright]) == [REPLACEMENT];
    Scalars16OfUnits([REPLACEMENT]);
    assert [REPLACEMENT][1..] == [];
    assert AllOctets([REPLACEMENT]) == Octets(REPLACEMENT) + AllOctets([]);
    assert REPLACEMENT / 0x40 == 0x3FF && REPLACEMENT / 0x40 / 0x40 == 0xF;
  }

  /** The examples of RFC 3629 section 7, and a character outside the basic plane. */
  lemma Examples()
    ensures Octets(0x41) == [0x41] && Octets(0x2262) == [0xE2, 0x89, 0xA2] && Octets(0x391) == [0xCE, 0x91]
    ensures Octets(0xD55C) == [0xED, 0x95, 0x9C] && Octets(0x65E5) == [0xE6, 0x97, 0xA5]
    ensures Octets(0x233B4) == [0xF0, 0xA3, 0x8E, 0xB4]
    ensures Units(0x1F600) == [0xD83D, 0xDE00] && Octets(0x1F600) == [0xF0, 0x9F, 0x98, 0x80]
  {
    hide Octets;
    OctetsOf([0x41], 0x41);
    OctetsOf([0xE2, 0x89, 0xA2], 0x2262);
    OctetsOf([0xCE, 0x91], 0x391);
    OctetsOf([0xED, 0x95, 0x9C], 0xD55C);
    OctetsOf([0xE6, 0x97, 0xA5], 0x65E5);
    OctetsOf([0xF0, 0xA3, 0x8E, 0xB4], 0x233B4);
    OctetsOf([0xF0, 0x9F, 0x98, 0x80], 0x1F600);
  }

  lemma OctetsOf(s: seq<byte>, c: Scalar)
    requires Utf8Char(s) && ScalarOf(s) == c
    ensures Octets(c) == s
  {
    GrammarGivesOctets(s);
  }

  /** A, the pair of 1F600, and what is after them: seven octets, and back again. */
  lemma ExampleText()
    ensures Encoded([0x41, 0xD83D, 0xDE00]) == [0x41, 0xF0, 0x9F, 0x98, 0x80]
    ensures Decoded([0x41, 0xF0, 0x9F, 0x98, 0x80]) == [0x41, 0xD83D, 0xDE00]
  {
    hide Octets, Units;
    Examples();
    UnitsSay(0x41);
    var cs: seq<Scalar> := [0x41, 0x1F600];
    assert cs[1..] == [0x1F600] && cs[1..][1..] == [];
    assert AllUnits(cs[1..]) == Units(0x1F600) + AllUnits([]) == [0xD83D, 0xDE00];
    assert AllUnits(cs) == [0x41, 0xD83D, 0xDE00];
    assert AllOctets(cs[1..]) == Octets(0x1F600) + AllOctets([]) == [0xF0, 0x9F, 0x98, 0x80];
    assert AllOctets(cs) == [0x41, 0xF0, 0x9F, 0x98, 0x80];
    Scalars16OfUnits(cs);
    DecodeEncode(AllUnits(cs));
  }
}
