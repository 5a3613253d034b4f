/** UTF-8: which strings of bytes are well formed, and that cleaning a path keeps them so. */
module Utf8 {
  import opened Basics
  import opened PathSpec

  predicate Tail(b: Byte) {
    0x80 <= b <= 0xBF
  }

  /** The second byte that may follow a first byte of three or four, as section 4 of RFC 3629 lists them. */
  predicate Second(first: Byte, b: Byte) {
    if first == 0xE0 then 0xA0 <= b <= 0xBF
    else if first == 0xED then 0x80 <= b <= 0x9F
    else if first == 0xF0 then 0x90 <= b <= 0xBF
    else if first == 0xF4 then 0x80 <= b <= 0x8F
    else Tail(b)
  }

  /** The number of bytes that a character with this first byte takes, or 0 if none begins with it. */
  function Width(first: Byte): (w: nat)
    ensures w <= 4
  {
    if first <= 0x7F then 1
    else if 0xC2 <= first <= 0xDF then 2
    else if 0xE0 <= first <= 0xEF then 3
    else if 0xF0 <= first <= 0xF4 then 4
    else 0
  }

  /** The bytes begin with a whole character. */
  predicate Begins(s: Text) {
    && s != [] && 0 < Width(s[0]) <= |s|
    && (Width(s[0]) >= 2 ==> Second(s[0], s[1]))
    && (Width(s[0]) >= 3 ==> Tail(s[2]))
    && (Width(s[0]) >= 4 ==> Tail(s[3]))
  }

  predicate WellFormed(s: Text)
    decreases |s|
  {
    s == [] || (Begins(s) && WellFormed(s[Width(s[0])..]))
  }

  // Well-formed strings are the encodings of sequences of characters.

  /** The numbers of characters: those below 0x110000 that are not surrogates. */
  predicate Scalar(c: nat) {
    c < 0xD800 || 0xE000 <= c < 0x11_0000
  }

  /** Section 3 of RFC 3629: the bits of the number, six to each byte after the first. */
  function Encode(c: nat): Text
    requires c < 0x11_0000
  {
    if c < 0x80 then [c as Byte]
    else if c < 0x800 then [(0xC0 + c / 0x40) as Byte, Low(c)]
    else if c < 0x1_0000 then [(0xE0 + c / 0x1000) as Byte, Low(c / 0x40), Low(c)]
    else [(0xF0 + c / 0x4_0000) as Byte, Low(c / 0x1000), Low(c / 0x40), Low(c)]
  }

  function Low(c: nat): Byte {
    (0x80 + c % 0x40) as Byte
  }

  predicate Scalars(cs: seq<nat>) {
    forall i | 0 <= i < |cs| :: Scalar(cs[i])
  }

  function EncodeAll(cs: seq<nat>): Text
    requires Scalars(cs)
  {
    if cs == [] then []
    else
      assert Scalar(cs[0]);
      Encode(cs[0]) + EncodeAll(cs[1..])
  }

  lemma EncodeBegins(c: nat, t: Text)
    requires Scalar(c)
    ensures Begins(Encode(c) + t) && Width(Encode(c)[0]) == |Encode(c)|
  {
  }

  lemma Digits(a: nat, b: nat)
    requires b < 0x40
    ensures (a * 0x40 + b) / 0x40 == a && (a * 0x40 + b) % 0x40 == b
  {
  }

  /** The character that the bytes begin with. */
  lemma Decode(s: Text) returns (c: nat)
    requires Begins(s)
    ensures Scalar(c) && Encode(c) == s[..Width(s[0])]
  {
    match Width(s[0])
    case 1 => c := s[0] as nat;
    case 2 => c := DecodeTwo(s[0], s[1]);
    case 3 => c := DecodeThree(s[0], s[1], s[2]);
    case 4 => c := DecodeFour(s[0], s[1], s[2], s[3]);
  }

  lemma DecodeTwo(x: Byte, y: Byte) returns (c: nat)
    requires Width(x) == 2 && Tail(y)
    ensures Scalar(c) && Encode(c) == [x, y]
  {
    var a, b := x as nat - 0xC0, y as nat - 0x80;
    Digits(a, b);
    c := a * 0x40 + b;
  }

  lemma DecodeThree(x: Byte, y: Byte, z: Byte) returns (c: nat)
    requires Width(x) == 3 && Second(x, y) && Tail(z)
    ensures Scalar(c) && Encode(c) == [x, y, z]
  {
    var a, b, d := x as nat - 0xE0, y as nat - 0x80, z as nat - 0x80;
    Digits(a, b);
    Digits(a * 0x40 + b, d);
    c := (a * 0x40 + b) * 0x40 + d;
    assert c / 0x1000 == c / 0x40 / 0x40;
  }

  lemma DecodeFour(x: Byte, y: Byte, z: Byte, w: Byte) returns (c: nat)
    requires Width(x) == 4 && Second(x, y) && Tail(z) && Tail(w)
    ensures Scalar(c) && Encode(c) == [x, y, z, w]
  {
    var a, b, d, e := x as nat - 0xF0, y as nat - 0x80, z as nat - 0x80, w as nat - 0x80;
    Digits(a, b);
    Digits(a * 0x40 + b, d);
    Digits((a * 0x40 + b) * 0x40 + d, e);
    c := ((a * 0x40 + b) * 0x40 + d) * 0x40 + e;
    assert c / 0x1000 == c / 0x40 / 0x40 && c / 0x4_0000 == c / 0x40 / 0x40 / 0x40;
  }

  lemma {:induction false} EncodedWellFormed(cs: seq<nat>)
    requires Scalars(cs)
    ensures WellFormed(EncodeAll(cs))
    decreases |cs|
  {
    if cs != [] {
      EncodedWellFormed(cs[1..]);
      EncodeBegins(cs[0], EncodeAll(cs[1..]));
      assert EncodeAll(cs)[|Encode(cs[0])|..] == EncodeAll(cs[1..]);
    }
  }

  lemma {:induction false} WellFormedEncoded(s: Text) returns (cs: seq<nat>)
    requires WellFormed(s)
    ensures Scalars(cs) && EncodeAll(cs) == s
    decreases |s|
  {
    if s == [] {
      cs := [];
    } else {
      var c := Decode(s);
      var rest := WellFormedEncoded(s[Width(s[0])..]);
      cs := [c] + rest;
      assert cs[1..] == rest;
    }
  }

  /** A string is well formed if and only if it encodes a sequence of characters. */
  lemma WellFormedIff(s: Text)
    ensures WellFormed(s) <==> exists cs: seq<nat> :: Scalars(cs) && EncodeAll(cs) == s
  {
    if cs: seq<nat> :| Scalars(cs) && EncodeAll(cs) == s {
      EncodedWellFormed(cs);
    }
    if WellFormed(s) {
      var cs := WellFormedEncoded(s);
    }
  }

  lemma BeginsStill(s: Text, t: Text)
    requires Begins(s)
    ensures Begins(s + t) && (s + t)[0] == s[0] && (s + t)[Width(s[0])..] == s[Width(s[0])..] + t
  {
  }

  lemma {:induction false} Concat(s: Text, t: Text)
    requires WellFormed(s) && WellFormed(t)
    ensures WellFormed(s + t)
    decreases |s|
  {
    if s == [] {
      assert s + t == t;
    } else {
      BeginsStill(s, t);
      Concat(s[Width(s[0])..], t);
    }
  }

  /** A byte below 128 is a character of its own, so cutting at one leaves whole characters on both sides. */
  lemma {:induction false} CutAt(s: Text, i: nat)
    requires WellFormed(s) && i < |s| && s[i] < 0x80
    ensures WellFormed(s[..i]) && WellFormed(s[i + 1..])
    decreases |s|
  {
    var w := Width(s[0]);
    if i > 0 {
      assert w <= i;
      var rest := s[w..];
      CutAt(rest, i - w);
      assert s[..i][w..] == rest[..i - w] && s[i + 1..] == rest[i - w + 1..];
    }
  }

  ghost predicate AllWellFormed(st: seq<Text>) {
    forall i | 0 <= i < |st| :: WellFormed(st[i])
  }

  lemma {:induction false} ComponentsWellFormed(s: Text)
    requires WellFormed(s)
    ensures AllWellFormed(Components(s))
    decreases |s|
  {
    var k := Head(s);
    if k < |s| {
      CutAt(s, k);
      ComponentsWellFormed(s[k + 1..]);
    }
  }

  lemma {:induction false} FoldWellFormed(rooted: bool, st: seq<Text>, cs: seq<Text>)
    requires AllWellFormed(st) && AllWellFormed(cs)
    ensures AllWellFormed(Fold(rooted, st, cs))
    decreases |cs|
  {
    if cs != [] {
      FoldWellFormed(rooted, Apply(rooted, st, cs[0]), cs[1..]);
    }
  }

  lemma SlashWellFormed()
    ensures WellFormed([SLASH]) && WellFormed(HERE)
  {
    assert [SLASH][1..] == [] && HERE[1..] == [];
  }

  lemma {:induction false} JoinWellFormed(st: seq<Text>)
    requires AllWellFormed(st)
    ensures WellFormed(Join(st))
    decreases |st|
  {
    if |st| > 1 {
      JoinWellFormed(st[..|st| - 1]);
      SlashWellFormed();
      Concat(Join(st[..|st| - 1]), [SLASH]);
      Concat(Join(st[..|st| - 1]) + [SLASH], st[|st| - 1]);
    }
  }

  /** The normal form of a path in well-formed UTF-8 is well-formed UTF-8. */
  lemma CleanedWellFormed(p: Text)
    requires WellFormed(p)
    ensures WellFormed(Cleaned(p))
  {
    ComponentsWellFormed(p);
    FoldWellFormed(Rooted(p), [], Components(p));
    JoinWellFormed(Stack(p));
    SlashWellFormed();
    Concat([SLASH], Join(Stack(p)));
    assert [] + Join(Stack(p)) == Join(Stack(p));
  }
}
